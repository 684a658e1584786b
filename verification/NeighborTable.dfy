/** The neighbour list as a value: what adding, expiring and clearing do to it, and what holds over whole runs. */
module NeighborTable {

  datatype Neighbor = Neighbor(usn: string, location: string, smId: string, deviceType: string, updateTime: int)

  /** The place of a location in the list, or its length. */
  function Find(l: seq<Neighbor>, location: string): (i: nat)
    ensures i <= |l|
    ensures i < |l| ==> l[i].location == location
    ensures forall k :: 0 <= k < i ==> l[k].location != location
  {
    if l == [] || l[0].location == location then 0 else 1 + Find(l[1..], location)
  }

  function Add(l: seq<Neighbor>, n: Neighbor): seq<Neighbor> {
    var i := Find(l, n.location);
    if i < |l| then l[i := n] else l + [n]
  }

  /** Conversion to a C long, whose largest value is longMax: 32 bits wide on the firmware's own processor.
      Values outside the range are brought back by whole turns of it. */
  function ToLong(x: int, longMax: nat): (r: int)
    ensures 0 <= r + longMax + 1 && r <= longMax
    decreases if x > longMax then x else if x + longMax + 1 < 0 then -x else 0
  {
    if x > longMax then ToLong(x - 2 * (longMax + 1), longMax)
    else if x + longMax + 1 < 0 then ToLong(x + 2 * (longMax + 1), longMax)
    else x
  }

  predicate Fresh(n: Neighbor, now: int, timeout: int, longMax: nat) {
    ToLong(now - n.updateTime, longMax) < timeout
  }

  function FreshAt(now: int, timeout: int, longMax: nat): Neighbor -> bool {
    n => Fresh(n, now, timeout, longMax)
  }

  /** What is kept of the first j entries. */
  function FilterTo(l: seq<Neighbor>, j: nat, keep: Neighbor -> bool): (r: seq<Neighbor>)
    requires j <= |l|
    ensures |r| <= j
  {
    if j == 0 then []
    else
      var before := FilterTo(l, j - 1, keep);
      if keep(l[j - 1]) then before + [l[j - 1]] else before
  }

  function Filter(l: seq<Neighbor>, keep: Neighbor -> bool): (r: seq<Neighbor>)
    ensures |r| <= |l|
  {
    FilterTo(l, |l|, keep)
  }

  lemma {:induction false} FilterMembers(l: seq<Neighbor>, j: nat, keep: Neighbor -> bool)
    requires j <= |l|
    ensures forall n :: n in FilterTo(l, j, keep) <==> n in l[..j] && keep(n)
  {
    if j > 0 {
      FilterMembers(l, j - 1, keep);
      assert l[..j] == l[..j - 1] + [l[j - 1]];
    }
  }

  /** lssdp_neighbor_check_timeout: nothing happens without a positive timeout or a valid clock. */
  function Check(l: seq<Neighbor>, now: int, timeout: int, longMax: nat): seq<Neighbor> {
    if timeout <= 0 || now < 0 then l else Filter(l, FreshAt(now, timeout, longMax))
  }

  /** A check that drops nothing leaves the list as it was. */
  lemma {:induction false} FilterAll(l: seq<Neighbor>, j: nat, keep: Neighbor -> bool)
    requires j <= |l|
    ensures |FilterTo(l, j, keep)| == j ==> FilterTo(l, j, keep) == l[..j]
  {
    if j > 0 {
      FilterAll(l, j - 1, keep);
    }
  }

  /** A neighbour without the time it was last heard. */
  function Bare(n: Neighbor): Neighbor {
    n.(updateTime := 0)
  }

  /** Whether two lists differ in anything but update times: what the list-changed callback is for. */
  predicate Changed(l: seq<Neighbor>, r: seq<Neighbor>) {
    |l| != |r| || exists i :: 0 <= i < |l| && Bare(l[i]) != Bare(r[i])
  }

  lemma ChangedAt(l: seq<Neighbor>, i: nat, n: Neighbor)
    requires i < |l|
    ensures Changed(l, l[i := n]) <==> Bare(l[i]) != Bare(n)
  {
    var r := l[i := n];
    assert r[i] == n;
    assert forall k :: 0 <= k < |l| && k != i ==> r[k] == l[k];
  }

  /** Part way through a check: j entries of the old list have been looked at and k of them kept. */
  predicate Scanned(l: seq<Neighbor>, was: seq<Neighbor>, j: nat, k: nat, keep: Neighbor -> bool)
    requires j <= |was|
  {
    && k <= j && |l| == k + |was| - j
    && l[..k] == FilterTo(was, j, keep)
    && l[k..] == was[j..]
  }

  lemma ScanStart(was: seq<Neighbor>, keep: Neighbor -> bool)
    ensures Scanned(was, was, 0, 0, keep)
  {}

  lemma ScanStep(l: seq<Neighbor>, was: seq<Neighbor>, j: nat, k: nat, keep: Neighbor -> bool)
    requires j <= |was| && Scanned(l, was, j, k, keep) && k < |l|
    ensures j < |was|
    ensures keep(l[k]) ==> Scanned(l, was, j + 1, k + 1, keep)
    ensures !keep(l[k]) ==> Scanned(l[..k] + l[k + 1..], was, j + 1, k, keep)
  {
    assert l[k] == l[k..][0] == was[j];
    assert l[k..][1..] == l[k + 1..];
    var r := l[..k] + l[k + 1..];
    assert r[..k] == l[..k] && r[k..] == l[k + 1..];
  }

  lemma ScanDone(l: seq<Neighbor>, was: seq<Neighbor>, j: nat, k: nat, keep: Neighbor -> bool)
    requires j <= |was| && Scanned(l, was, j, k, keep) && k == |l|
    ensures j == |was| && l == Filter(was, keep)
  {
    assert l[..k] == l;
  }

  predicate Distinct(l: seq<Neighbor>) {
    forall i, j :: 0 <= i < j < |l| ==> l[i].location != l[j].location
  }

  // ----- An insertion-ordered map, the reference the list refines -----

  datatype OrderedMap = OrderedMap(order: seq<string>, values: map<string, Neighbor>)
  {
    function Put(key: string, n: Neighbor): OrderedMap {
      OrderedMap(if key in values then order else order + [key], values[key := n])
    }

    function Retain(keep: Neighbor -> bool): OrderedMap {
      var kept := map k | k in values && keep(values[k]) :: values[k];
      OrderedMap(KeepKeys(order, |order|, kept.Keys), kept)
    }
  }

  function KeepKeys(ks: seq<string>, j: nat, s: set<string>): seq<string>
    requires j <= |ks|
  {
    if j == 0 then []
    else
      var before := KeepKeys(ks, j - 1, s);
      if ks[j - 1] in s then before + [ks[j - 1]] else before
  }

  function Locations(l: seq<Neighbor>): (ks: seq<string>)
    ensures |ks| == |l| && forall i :: 0 <= i < |l| ==> ks[i] == l[i].location
  {
    seq(|l|, i requires 0 <= i < |l| => l[i].location)
  }

  function ByLocation(l: seq<Neighbor>): (m: map<string, Neighbor>)
    requires Distinct(l)
  {
    map i | 0 <= i < |l| :: l[i].location := l[i]
  }

  function AsMap(l: seq<Neighbor>): OrderedMap
    requires Distinct(l)
  {
    OrderedMap(Locations(l), ByLocation(l))
  }

  lemma SameMap(l: seq<Neighbor>, m: map<string, Neighbor>)
    requires Distinct(l)
    requires forall k :: k in m ==> m[k] in l && m[k].location == k
    requires forall i :: 0 <= i < |l| ==> l[i].location in m
    ensures ByLocation(l) == m
  {
    var b := ByLocation(l);
    forall k | k in m ensures k in b && b[k] == m[k] {
      var i :| 0 <= i < |l| && l[i] == m[k];
      assert l[i].location == k;
    }
  }

  lemma AddMembers(l: seq<Neighbor>, n: Neighbor)
    requires Distinct(l)
    ensures Distinct(Add(l, n))
    ensures forall x :: x in Add(l, n) <==> x == n || (x in l && x.location != n.location)
  {
    var i, r := Find(l, n.location), Add(l, n);
    assert r[i] == n;
    forall x | x in l && x.location != n.location ensures x in r {
      var j :| 0 <= j < |l| && l[j] == x;
      assert r[j] == x;
    }
    forall x | x in r ensures x == n || (x in l && x.location != n.location) {
      var j :| 0 <= j < |r| && r[j] == x;
    }
  }

  lemma PutMembers(l: seq<Neighbor>, n: Neighbor)
    requires Distinct(l)
    ensures var m := ByLocation(l)[n.location := n];
      && (forall k :: k in m ==> m[k] in Add(l, n) && m[k].location == k)
      && (forall i :: 0 <= i < |Add(l, n)| ==> Add(l, n)[i].location in m)
  {
    AddMembers(l, n);
    var r := Add(l, n);
    forall i | 0 <= i < |r| ensures r[i].location in ByLocation(l)[n.location := n] {
      assert r[i] in r;
    }
  }

  lemma KnownLocation(l: seq<Neighbor>, location: string)
    requires Distinct(l)
    ensures location in ByLocation(l) <==> Find(l, location) < |l|
  {
  }

  /** Adding a neighbour is a map update; a known location keeps its place, a new one goes last. */
  lemma AddRefinesPut(l: seq<Neighbor>, n: Neighbor)
    requires Distinct(l)
    ensures Distinct(Add(l, n))
    ensures AsMap(Add(l, n)) == AsMap(l).Put(n.location, n)
  {
    AddMembers(l, n);
    KnownLocation(l, n.location);
    assert Locations(Add(l, n)) == AsMap(l).Put(n.location, n).order;
    PutMembers(l, n);
    SameMap(Add(l, n), ByLocation(l)[n.location := n]);
  }

  lemma {:induction false} FilterDistinct(l: seq<Neighbor>, j: nat, keep: Neighbor -> bool)
    requires Distinct(l) && j <= |l|
    ensures Distinct(FilterTo(l, j, keep))
  {
    if j > 0 {
      FilterDistinct(l, j - 1, keep);
      FilterMembers(l, j - 1, keep);
      var r := FilterTo(l, j - 1, keep);
      forall i | 0 <= i < |r| ensures r[i].location != l[j - 1].location {
        assert r[i] in l[..j - 1];
        var k :| 0 <= k < j - 1 && l[k] == r[i];
      }
    }
  }

  lemma {:induction false} FilterOrder(l: seq<Neighbor>, j: nat, keep: Neighbor -> bool, s: set<string>)
    requires j <= |l| && forall n :: n in l ==> (n.location in s <==> keep(n))
    ensures Locations(FilterTo(l, j, keep)) == KeepKeys(Locations(l), j, s)
  {
    if j > 0 {
      var r := FilterTo(l, j - 1, keep);
      FilterOrder(l, j - 1, keep, s);
      assert l[j - 1] in l;
      assert Locations(r + [l[j - 1]]) == Locations(r) + [l[j - 1].location];
    }
  }

  /** Filtering the list is filtering the map; what stays keeps its place. */
  lemma FilterRefinesRetain(l: seq<Neighbor>, keep: Neighbor -> bool)
    requires Distinct(l)
    ensures Distinct(Filter(l, keep))
    ensures AsMap(Filter(l, keep)) == AsMap(l).Retain(keep)
  {
    var kept := AsMap(l).Retain(keep).values;
    FilterDistinct(l, |l|, keep);
    FilterMembers(l, |l|, keep);
    assert l[..|l|] == l;
    forall n | n in l ensures n.location in kept.Keys <==> keep(n) {
      var i :| 0 <= i < |l| && l[i] == n;
      assert ByLocation(l)[n.location] == n;
    }
    FilterOrder(l, |l|, keep, kept.Keys);
    SameMap(Filter(l, keep), kept);
  }

  /** A timeout check keeps exactly the entries younger than the timeout, each in its place. */
  lemma CheckRefinesRetain(l: seq<Neighbor>, now: int, timeout: int, longMax: nat)
    requires Distinct(l) && timeout > 0 && now >= 0
    ensures Distinct(Check(l, now, timeout, longMax))
    ensures AsMap(Check(l, now, timeout, longMax)) == AsMap(l).Retain(n => Fresh(n, now, timeout, longMax))
  {
    FilterRefinesRetain(l, FreshAt(now, timeout, longMax));
  }

  // ----- Whole runs -----

  /** What can happen to the list: a peer is heard, the timeout check runs, the list is cleared. */
  datatype Event = Heard(n: Neighbor) | Checked(now: int) | Cleared
  {
    function Time(): int
      requires !Cleared?
    {
      if Heard? then n.updateTime else now
    }
  }

  function Apply(l: seq<Neighbor>, e: Event, timeout: int, longMax: nat): seq<Neighbor> {
    match e
    case Heard(n) => Add(l, n)
    case Checked(now) => Check(l, now, timeout, longMax)
    case Cleared => []
  }

  function Run(l: seq<Neighbor>, es: seq<Event>, timeout: int, longMax: nat): seq<Neighbor> {
    if es == [] then l else Apply(Run(l, es[..|es| - 1], timeout, longMax), es[|es| - 1], timeout, longMax)
  }

  lemma ApplyDistinct(l: seq<Neighbor>, e: Event, timeout: int, longMax: nat)
    requires Distinct(l)
    ensures Distinct(Apply(l, e, timeout, longMax))
  {
    match e
    case Heard(n) => AddMembers(l, n);
    case Checked(now) => FilterDistinct(l, |l|, FreshAt(now, timeout, longMax));
    case Cleared =>
  }

  /** No run ever gives two entries one location. */
  lemma {:induction false} RunDistinct(l: seq<Neighbor>, es: seq<Event>, timeout: int, longMax: nat)
    requires Distinct(l)
    ensures Distinct(Run(l, es, timeout, longMax))
  {
    if es != [] {
      RunDistinct(l, es[..|es| - 1], timeout, longMax);
      ApplyDistinct(Run(l, es[..|es| - 1], timeout, longMax), es[|es| - 1], timeout, longMax);
    }
  }

  /** The same events on the ordered map: put, retain what is young enough, empty. */
  function MapApply(m: OrderedMap, e: Event, timeout: int, longMax: nat): OrderedMap {
    match e
    case Heard(n) => m.Put(n.location, n)
    case Checked(now) => if timeout > 0 && now >= 0 then m.Retain(FreshAt(now, timeout, longMax)) else m
    case Cleared => OrderedMap([], map[])
  }

  function MapRun(m: OrderedMap, es: seq<Event>, timeout: int, longMax: nat): OrderedMap {
    if es == [] then m else MapApply(MapRun(m, es[..|es| - 1], timeout, longMax), es[|es| - 1], timeout, longMax)
  }

  lemma ApplyRefines(l: seq<Neighbor>, e: Event, timeout: int, longMax: nat)
    requires Distinct(l)
    ensures Distinct(Apply(l, e, timeout, longMax))
    ensures AsMap(Apply(l, e, timeout, longMax)) == MapApply(AsMap(l), e, timeout, longMax)
  {
    match e
    case Heard(n) => AddRefinesPut(l, n);
    case Checked(now) => FilterRefinesRetain(l, FreshAt(now, timeout, longMax));
    case Cleared => assert AsMap([]).order == [] && AsMap([]).values == map[];
  }

  /** Whole runs refine: the list is at every moment the insertion-ordered map that went through the same events. */
  lemma {:induction false} RunRefinesMap(l: seq<Neighbor>, es: seq<Event>, timeout: int, longMax: nat)
    requires Distinct(l)
    ensures Distinct(Run(l, es, timeout, longMax))
    ensures AsMap(Run(l, es, timeout, longMax)) == MapRun(AsMap(l), es, timeout, longMax)
  {
    if es != [] {
      RunRefinesMap(l, es[..|es| - 1], timeout, longMax);
      ApplyRefines(Run(l, es[..|es| - 1], timeout, longMax), es[|es| - 1], timeout, longMax);
    }
  }

  datatype Lookup = Absent | Present(n: Neighbor)

  function At(l: seq<Neighbor>, location: string): Lookup {
    var i := Find(l, location);
    if i < |l| then Present(l[i]) else Absent
  }

  /** One peer's own history: its last announcement, unless a check found it too old or the list was cleared. */
  function Tracked(start: Lookup, es: seq<Event>, location: string, timeout: int, longMax: nat): Lookup {
    if es == [] then start
    else
      var before := Tracked(start, es[..|es| - 1], location, timeout, longMax);
      match es[|es| - 1]
      case Heard(n) => if n.location == location then Present(n) else before
      case Checked(now) =>
        if before.Present? && timeout > 0 && now >= 0 && !Fresh(before.n, now, timeout, longMax) then Absent else before
      case Cleared => Absent
  }

  lemma AtMember(l: seq<Neighbor>, location: string)
    requires Distinct(l)
    ensures forall n :: At(l, location) == Present(n) <==> n in l && n.location == location
  {
    forall n | n in l && n.location == location ensures At(l, location) == Present(n) {
      var i :| 0 <= i < |l| && l[i] == n;
      assert Find(l, location) == i;
    }
  }

  lemma ApplyAt(l: seq<Neighbor>, e: Event, location: string, timeout: int, longMax: nat)
    requires Distinct(l)
    ensures At(Apply(l, e, timeout, longMax), location) == Tracked(At(l, location), [e], location, timeout, longMax)
  {
    var r, before := Apply(l, e, timeout, longMax), At(l, location);
    ApplyDistinct(l, e, timeout, longMax);
    AtMember(l, location);
    AtMember(r, location);
    assert [e][..0] == [];
    assert Tracked(before, [], location, timeout, longMax) == before;
    match e
    case Heard(n) =>
      AddMembers(l, n);
      if n.location == location {
        assert n in r;
      } else if before.Present? {
        assert before.n in r;
      }
    case Checked(now) =>
      FilterMembers(l, |l|, FreshAt(now, timeout, longMax));
      assert l[..|l|] == l;
      if before.Present? {
        assert timeout > 0 && now >= 0 ==> (before.n in r <==> Fresh(before.n, now, timeout, longMax));
      }
    case Cleared =>
  }

  /** Peers do not disturb each other: what a run leaves at a location depends on that peer's announcements
      and the checks alone. */
  lemma {:induction false} RunTracks(l: seq<Neighbor>, es: seq<Event>, location: string, timeout: int, longMax: nat)
    requires Distinct(l)
    ensures At(Run(l, es, timeout, longMax), location) == Tracked(At(l, location), es, location, timeout, longMax)
  {
    if es != [] {
      var init := es[..|es| - 1];
      RunTracks(l, init, location, timeout, longMax);
      RunDistinct(l, init, timeout, longMax);
      ApplyAt(Run(l, init, timeout, longMax), es[|es| - 1], location, timeout, longMax);
      assert [es[|es| - 1]][..0] == [];
    }
  }

  // ----- What counts as a change -----

  /** Hearing a peer changes the list for the callback exactly when the peer is new or its USN, SM_ID or device
      type is. */
  lemma HeardChanges(l: seq<Neighbor>, n: Neighbor)
    ensures Changed(l, Add(l, n))
       <==> match At(l, n.location)
            case Absent => true
            case Present(m) => m.usn != n.usn || m.smId != n.smId || m.deviceType != n.deviceType
  {
    var i := Find(l, n.location);
    if i < |l| {
      ChangedAt(l, i, n);
    }
  }

  lemma {:induction false} FilterLength(l: seq<Neighbor>, j: nat, keep: Neighbor -> bool)
    requires j <= |l|
    ensures |FilterTo(l, j, keep)| < j <==> exists k :: 0 <= k < j && !keep(l[k])
  {
    if j > 0 {
      FilterLength(l, j - 1, keep);
    }
  }

  /** A check changes it exactly when there is an entry that is too old. */
  lemma CheckChanges(l: seq<Neighbor>, now: int, timeout: int, longMax: nat)
    ensures Changed(l, Check(l, now, timeout, longMax))
       <==> timeout > 0 && now >= 0
            && exists k :: 0 <= k < |l| && ToLong(now - l[k].updateTime, longMax) >= timeout
  {
    var keep := FreshAt(now, timeout, longMax);
    FilterLength(l, |l|, keep);
    FilterAll(l, |l|, keep);
    assert l[..|l|] == l;
    assert forall k :: 0 <= k < |l| ==> (keep(l[k]) <==> ToLong(now - l[k].updateTime, longMax) < timeout);
  }

  /** Clearing changes it exactly when there is something to clear. */
  lemma ClearChanges(l: seq<Neighbor>)
    ensures Changed(l, []) <==> l != []
  {}

  // ----- Timeouts over whole runs -----

  predicate Monotone(es: seq<Event>) {
    forall i, j :: 0 <= i < j < |es| && !es[i].Cleared? && !es[j].Cleared? ==> es[i].Time() <= es[j].Time()
  }

  /** The peer was heard at i, before k, and less than the timeout earlier. */
  predicate HeardShortlyBefore(es: seq<Event>, location: string, i: nat, k: nat, timeout: int) {
    i < k < |es| && es[i].Heard? && es[i].n.location == location && es[k].Checked?
    && es[k].now - es[i].n.updateTime < timeout
  }

  /** Every check after this point finds the peer heard shortly before. */
  ghost predicate Refreshed(es: seq<Event>, location: string, timeout: int, heard: nat) {
    forall k :: heard < k < |es| && es[k].Checked? ==> exists i :: HeardShortlyBefore(es, location, i, k, timeout)
  }

  /** The peer is heard at this point and the list is not cleared afterwards. */
  predicate HeardAt(es: seq<Event>, location: string, heard: nat) {
    && heard < |es| && es[heard].Heard? && es[heard].n.location == location
    && forall i :: heard < i < |es| ==> !es[i].Cleared?
  }

  lemma ToLongSmall(x: int, longMax: nat)
    requires 0 <= x <= longMax
    ensures ToLong(x, longMax) == x
  {}

  /** A peer that was heard, and is heard again within the timeout before every later check, is never dropped by one. */
  lemma RefreshedPeerStays(l: seq<Neighbor>, es: seq<Event>, location: string, timeout: int, longMax: nat, heard: nat)
    requires Distinct(l) && timeout <= longMax && Monotone(es)
    requires HeardAt(es, location, heard) && Refreshed(es, location, timeout, heard)
    ensures At(Run(l, es, timeout, longMax), location).Present?
    ensures At(Run(l, es, timeout, longMax), location).n.updateTime >= es[heard].n.updateTime
    ensures At(Run(l, es, timeout, longMax), location).n.updateTime <= es[|es| - 1].Time()
  {
    RunTracks(l, es, location, timeout, longMax);
    TrackedStays(At(l, location), es, location, timeout, longMax, heard);
  }

  lemma RefreshedPrefix(es: seq<Event>, k: nat, location: string, timeout: int, heard: nat, later: nat)
    requires k <= |es| && heard <= later && Refreshed(es, location, timeout, heard)
    ensures Refreshed(es[..k], location, timeout, later)
  {
    var init := es[..k];
    forall j | later < j < |init| && init[j].Checked?
      ensures exists i :: HeardShortlyBefore(init, location, i, j, timeout)
    {
      var i: nat :| HeardShortlyBefore(es, location, i, j, timeout);
      assert HeardShortlyBefore(init, location, i, j, timeout);
    }
  }

  /** A check after the peer was heard has a hearing at most the timeout old, no earlier than that one. */
  lemma LaterHearing(es: seq<Event>, location: string, timeout: int, heard: nat, k: nat) returns (last: nat)
    requires Monotone(es) && HeardAt(es, location, heard) && Refreshed(es, location, timeout, heard)
    requires heard < k < |es| && es[k].Checked?
    ensures heard <= last < k && HeardAt(es, location, last)
    ensures es[k].now - es[last].n.updateTime < timeout && es[heard].n.updateTime <= es[last].n.updateTime
  {
    var i: nat :| HeardShortlyBefore(es, location, i, k, timeout);
    last := if i < heard then heard else i;
    assert es[heard].Time() == es[heard].n.updateTime && es[i].Time() == es[i].n.updateTime;
  }

  /** The last event leaves a present peer present, unless it clears the list or finds the peer too old. */
  lemma TrackedLast(start: Lookup, es: seq<Event>, location: string, timeout: int, longMax: nat)
    requires timeout <= longMax && es != [] && !es[|es| - 1].Cleared?
    requires Tracked(start, es[..|es| - 1], location, timeout, longMax).Present?
    requires var e, n := es[|es| - 1], Tracked(start, es[..|es| - 1], location, timeout, longMax).n;
      e.Checked? ==> 0 <= e.now - n.updateTime < timeout
    ensures var e, t := es[|es| - 1], Tracked(start, es, location, timeout, longMax);
      t == Tracked(start, es[..|es| - 1], location, timeout, longMax) || (t.Present? && e == Heard(t.n))
  {
    var e, n := es[|es| - 1], Tracked(start, es[..|es| - 1], location, timeout, longMax).n;
    if e.Checked? {
      ToLongSmall(e.now - n.updateTime, longMax);
    }
  }

  lemma {:induction false} TrackedStays(start: Lookup, es: seq<Event>, location: string, timeout: int, longMax: nat,
                                        heard: nat)
    requires timeout <= longMax && Monotone(es)
    requires HeardAt(es, location, heard) && Refreshed(es, location, timeout, heard)
    ensures var t := Tracked(start, es, location, timeout, longMax);
      t.Present? && es[heard].n.updateTime <= t.n.updateTime <= es[|es| - 1].Time()
  {
    var k := |es| - 1;
    var init := es[..k];
    if heard < k {
      var last := heard;
      if es[k].Checked? {
        last := LaterHearing(es, location, timeout, heard, k);
      }
      RefreshedPrefix(es, k, location, timeout, heard, last);
      assert Monotone(init) && HeardAt(init, location, last);
      TrackedStays(start, init, location, timeout, longMax, last);
      var t := Tracked(start, init, location, timeout, longMax);
      assert init[k - 1].Time() <= es[k].Time();
      TrackedLast(start, es, location, timeout, longMax);
    }
  }

  /** A peer not heard within the timeout before a check is gone after it, as long as its age fits a C long. */
  lemma SilentPeerDropped(l: seq<Neighbor>, es: seq<Event>, now: int, location: string, timeout: int, longMax: nat)
    requires Distinct(l) && timeout > 0 && now >= 0
    requires forall n :: n in l && n.location == location ==> timeout <= now - n.updateTime <= longMax
    requires forall i :: 0 <= i < |es| && es[i].Heard? && es[i].n.location == location ==>
               timeout <= now - es[i].n.updateTime <= longMax
    ensures At(Run(l, es + [Checked(now)], timeout, longMax), location) == Absent
  {
    var all := es + [Checked(now)];
    RunTracks(l, all, location, timeout, longMax);
    assert all[..|all| - 1] == es;
    var start := At(l, location);
    assert start.Present? ==> start.n in l;
    TrackedOrigin(start, es, location, timeout, longMax);
    var before := Tracked(start, es, location, timeout, longMax);
    if before.Present? {
      ToLongSmall(now - before.n.updateTime, longMax);
    }
  }

  lemma {:induction false} TrackedOrigin(start: Lookup, es: seq<Event>, location: string, timeout: int, longMax: nat)
    ensures var t := Tracked(start, es, location, timeout, longMax);
      t == Absent || t == start || exists i :: 0 <= i < |es| && es[i] == Heard(t.n) && t.n.location == location
  {
    if es != [] {
      var init := es[..|es| - 1];
      TrackedOrigin(start, init, location, timeout, longMax);
      var b := Tracked(start, init, location, timeout, longMax);
      if b != Absent && b != start {
        var i :| 0 <= i < |init| && init[i] == Heard(b.n) && b.n.location == location;
        assert es[i] == Heard(b.n);
      }
      assert es[|es| - 1] == es[|es| - 1];
    }
  }

  /** The bound on the age matters: the difference is narrowed to a long, so a check drops an entry exactly when its
      age, taken modulo the range of a long, lies between the timeout and longMax.  An entry one step past the range
      looks young again and stays. */
  lemma DroppedExactlyWhen(l: seq<Neighbor>, location: string, now: int, timeout: int, longMax: nat)
    requires Distinct(l) && 0 < timeout <= longMax && now >= 0 && At(l, location).Present?
    ensures var n, after := At(l, location).n, At(Check(l, now, timeout, longMax), location);
      && after in {Absent, Present(n)}
      && (after == Absent <==> timeout <= (now - n.updateTime) % (2 * (longMax + 1)) <= longMax)
      && (now - n.updateTime == longMax + 1 ==> after == Present(n))
  {
    ApplyAt(l, Checked(now), location, timeout, longMax);
    assert [Checked(now)][..0] == [];
    assert Tracked(At(l, location), [], location, timeout, longMax) == At(l, location);
    ToLongIsMod(now - At(l, location).n.updateTime, longMax);
  }

  lemma {:induction false} ToLongIsMod(x: int, longMax: nat)
    ensures ToLong(x, longMax) == Folded(x % (2 * (longMax + 1)), longMax)
    decreases if x >= 0 then x else -x
  {
    var m := 2 * (longMax + 1);
    if x >= m {
      ToLongIsMod(x - m, longMax);
      ModStep(x, m);
    } else if x >= 0 {
      SmallMod(x, m);
      assert x > longMax ==> ToLong(x, longMax) == x - m;
    } else if x + longMax + 1 < 0 {
      ToLongIsMod(x + m, longMax);
      ModStep(x + m, m);
    } else {
      SmallMod(x + m, m);
      ModStep(x + m, m);
    }
  }

  function Folded(r: int, longMax: nat): int {
    if r <= longMax then r else r - 2 * (longMax + 1)
  }

  lemma SmallMod(x: nat, m: nat)
    requires x < m
    ensures x % m == x
  {}

  lemma ModStep(x: int, m: int)
    requires m > 0
    ensures (x - m) % m == x % m
  {
    var q := x / m;
    assert x - m == (q - 1) * m + x % m;
    var d := (x - m) / m - (q - 1);
    assert x - m == ((x - m) / m) * m + (x - m) % m;
    assert d * m == x % m - (x - m) % m;
    assert d >= 1 ==> d * m >= m;
    assert d <= -1 ==> d * m <= -m;
  }
}
