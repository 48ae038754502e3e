/** The ports the Linux tracker holds from the host (GnsPortTracker.h and .cpp):
    an ordered map from a port to an optional deadline, changed by bind calls and
    by snapshots of what is really bound. */
module PortAllocations {
  import opened Sockets
  import opened Wrappers

  const BIND_TIMEOUT := 60

  // ---------------------------------------------------------------- key order

  datatype PortRecord = PortRecord(address: seq<byte>, port: nat, family: int, protocol: int)

  type PortAllocation = p: PortRecord | |p.address| == 16 witness PortRecord(seq(16, _ => 0), 0, 0, 0)

  /** memcmp over equally long byte strings. */
  function MemCmp(a: seq<byte>, b: seq<byte>): int
    requires |a| == |b|
  {
    if a == [] then 0 else if a[0] != b[0] then a[0] as int - b[0] as int else MemCmp(a[1..], b[1..])
  }

  /** PortAllocation::operator<. */
  predicate Less(a: PortAllocation, b: PortAllocation) {
    if a.port < b.port then true
    else if a.port > b.port then false
    else if a.family < b.family then true
    else if a.family > b.family then false
    else if a.protocol < b.protocol then true
    else if a.protocol > b.protocol then false
    else MemCmp(a.address, b.address) < 0
  }

  lemma {:induction false} MemCmpOrder(a: seq<byte>, b: seq<byte>)
    requires |a| == |b|
    ensures MemCmp(a, b) == 0 <==> a == b
    ensures MemCmp(a, b) < 0 <==> MemCmp(b, a) > 0
  {
    if a != [] {
      MemCmpOrder(a[1..], b[1..]);
      assert a == [a[0]] + a[1..] && b == [b[0]] + b[1..];
    }
  }

  lemma {:induction false} MemCmpTransitive(a: seq<byte>, b: seq<byte>, c: seq<byte>)
    requires |a| == |b| == |c| && MemCmp(a, b) < 0 && MemCmp(b, c) < 0
    ensures MemCmp(a, c) < 0
  {
    if a != [] && a[0] == b[0] == c[0] {
      MemCmpTransitive(a[1..], b[1..], c[1..]);
    }
  }

  /** The order is total and strict, so the map has one place for every port. */
  lemma LessIsStrictTotal(a: PortAllocation, b: PortAllocation)
    ensures !(Less(a, b) && Less(b, a))
    ensures !Less(a, b) && !Less(b, a) <==> a == b
  {
    MemCmpOrder(a.address, b.address);
    MemCmpOrder(b.address, a.address);
  }

  lemma LessIsTransitive(a: PortAllocation, b: PortAllocation, c: PortAllocation)
    requires Less(a, b) && Less(b, c)
    ensures Less(a, c)
  {
    if a.port == c.port && a.family == c.family && a.protocol == c.protocol {
      MemCmpTransitive(a.address, b.address, c.address);
    }
  }

  // ---------------------------------------------------------------- the map

  datatype Entry = Entry(port: PortAllocation, deadline: Option<int>)

  /** A std::map in iteration order. */
  ghost predicate Sorted(m: seq<Entry>) {
    forall i, j :: 0 <= i < j < |m| ==> Less(m[i].port, m[j].port)
  }

  function Keys(m: seq<Entry>): set<PortAllocation> {
    set i | 0 <= i < |m| :: m[i].port
  }

  function Table(m: seq<Entry>): map<PortAllocation, Option<int>> {
    if m == [] then map[] else Table(m[1..])[m[0].port := m[0].deadline]
  }

  lemma {:induction false} TableEntries(m: seq<Entry>)
    requires Sorted(m)
    ensures Table(m).Keys == Keys(m)
    ensures forall i :: 0 <= i < |m| ==> m[i].port in Table(m) && Table(m)[m[i].port] == m[i].deadline
  {
    if m != [] {
      TableEntries(m[1..]);
      assert forall i :: 1 <= i < |m| ==> m[i] == m[1..][i - 1];
      forall i | 1 <= i < |m| ensures m[i].port != m[0].port {
        LessIsStrictTotal(m[0].port, m[i].port);
      }
      assert Keys(m) == {m[0].port} + Keys(m[1..]);
    }
  }

  /** std::map::emplace: an existing entry stays as it is. */
  function Emplace(m: seq<Entry>, e: Entry): (r: seq<Entry>)
    ensures forall x :: x in r ==> x == e || x in m
  {
    if m == [] then [e]
    else if Less(e.port, m[0].port) then [e] + m
    else if Less(m[0].port, e.port) then [m[0]] + Emplace(m[1..], e)
    else m
  }

  lemma {:induction false} EmplaceKeepsOrder(m: seq<Entry>, e: Entry)
    requires Sorted(m)
    ensures Sorted(Emplace(m, e))
  {
    if m == [] {
    } else if Less(e.port, m[0].port) {
      forall j | 0 <= j < |m| ensures Less(e.port, m[j].port) {
        if j > 0 {
          LessIsTransitive(e.port, m[0].port, m[j].port);
        }
      }
    } else if Less(m[0].port, e.port) {
      EmplaceKeepsOrder(m[1..], e);
      var r := Emplace(m[1..], e);
      forall j | 0 <= j < |r| ensures Less(m[0].port, r[j].port) {
        assert r[j] in r;
      }
    }
  }

  lemma {:induction false} EmplaceTable(m: seq<Entry>, e: Entry)
    requires Sorted(m)
    ensures Table(Emplace(m, e)) == if e.port in Table(m) then Table(m) else Table(m)[e.port := e.deadline]
  {
    if m != [] {
      LessIsStrictTotal(e.port, m[0].port);
      if Less(e.port, m[0].port) {
        assert ([e] + m)[1..] == m;
        forall j | 0 <= j < |m| ensures e.port != m[j].port {
          if j > 0 {
            LessIsTransitive(e.port, m[0].port, m[j].port);
          }
          LessIsStrictTotal(e.port, m[j].port);
        }
        TableEntries(m);
      } else if Less(m[0].port, e.port) {
        EmplaceTable(m[1..], e);
        assert ([m[0]] + Emplace(m[1..], e))[1..] == Emplace(m[1..], e);
      }
    }
  }

  lemma EmplaceAll(m: seq<Entry>, e: Entry)
    requires Sorted(m)
    ensures Sorted(Emplace(m, e))
    ensures Table(Emplace(m, e)) == if e.port in Table(m) then Table(m) else Table(m)[e.port := e.deadline]
    ensures Keys(Emplace(m, e)) == Keys(m) + {e.port}
  {
    EmplaceKeepsOrder(m, e);
    EmplaceTable(m, e);
    TableEntries(m);
    TableEntries(Emplace(m, e));
  }

  // ---------------------------------------------------------------- a snapshot applied

  /** What a snapshot taken at `stamp` decides for one entry that it lacks. */
  predicate Expired(deadline: Option<int>, stamp: int) {
    deadline.None? || deadline.value < stamp
  }

  predicate Releases(e: Entry, ports: set<PortAllocation>, stamp: int) {
    e.port !in ports && Expired(e.deadline, stamp)
  }

  /** The map after a snapshot, entry by entry in key order. */
  function Refreshed(m: seq<Entry>, ports: set<PortAllocation>, stamp: int): seq<Entry> {
    if m == [] then []
    else if Releases(m[0], ports, stamp) then Refreshed(m[1..], ports, stamp)
    else [if m[0].port in ports then m[0].(deadline := None) else m[0]] + Refreshed(m[1..], ports, stamp)
  }

  /** The ports handed back, in key order. */
  function Released(m: seq<Entry>, ports: set<PortAllocation>, stamp: int): seq<PortAllocation> {
    if m == [] then []
    else (if Releases(m[0], ports, stamp) then [m[0].port] else []) + Released(m[1..], ports, stamp)
  }

  ghost function Kept(t: map<PortAllocation, Option<int>>, ports: set<PortAllocation>, stamp: int): map<PortAllocation, Option<int>> {
    map k | k in t && (k in ports || !Expired(t[k], stamp)) :: if k in ports then None else t[k]
  }

  lemma HeadIsLeast(m: seq<Entry>)
    requires Sorted(m) && m != []
    ensures forall k :: k in Table(m[1..]) ==> Less(m[0].port, k) && k != m[0].port
  {
    TableEntries(m[1..]);
    forall k | k in Table(m[1..]) ensures Less(m[0].port, k) && k != m[0].port {
      assert k in Keys(m[1..]);
      var i :| 0 <= i < |m[1..]| && m[1..][i].port == k;
      assert m[i + 1].port == k;
      LessIsStrictTotal(m[0].port, k);
    }
  }

  lemma {:induction false} RefreshedOrder(m: seq<Entry>, ports: set<PortAllocation>, stamp: int)
    requires Sorted(m)
    ensures Sorted(Refreshed(m, ports, stamp))
    ensures Keys(Refreshed(m, ports, stamp)) <= Keys(m)
  {
    if m != [] {
      RefreshedOrder(m[1..], ports, stamp);
      var r := Refreshed(m[1..], ports, stamp);
      assert forall j :: 0 <= j < |m[1..]| ==> m[1..][j] == m[j + 1];
      forall j | 0 <= j < |r| ensures Less(m[0].port, r[j].port) && r[j].port in Keys(m) {
        assert r[j].port in Keys(m[1..]);
      }
    }
  }

  /** Erasing while iterating is one filter and update of the whole map. */
  lemma {:induction false} RefreshedTable(m: seq<Entry>, ports: set<PortAllocation>, stamp: int)
    requires Sorted(m)
    ensures Table(Refreshed(m, ports, stamp)) == Kept(Table(m), ports, stamp)
  {
    if m != [] {
      hide Less, Sorted;
      var rest := Refreshed(m[1..], ports, stamp);
      SortedRest(m);
      RefreshedTable(m[1..], ports, stamp);
      HeadIsLeast(m);
      KeptHead(Table(m[1..]), m[0], ports, stamp);
      if !Releases(m[0], ports, stamp) {
        assert Refreshed(m, ports, stamp)[1..] == rest;
      }
    }
  }

  lemma SortedRest(m: seq<Entry>)
    requires Sorted(m) && m != []
    ensures Sorted(m[1..])
  {
  }

  lemma KeptHead(t: map<PortAllocation, Option<int>>, e: Entry, ports: set<PortAllocation>, stamp: int)
    requires e.port !in t
    ensures Kept(t[e.port := e.deadline], ports, stamp) ==
            if e.port in ports then Kept(t, ports, stamp)[e.port := None]
            else if Expired(e.deadline, stamp) then Kept(t, ports, stamp)
            else Kept(t, ports, stamp)[e.port := e.deadline]
  {
  }

  lemma {:induction false} ReleasedPorts(m: seq<Entry>, ports: set<PortAllocation>, stamp: int)
    requires Sorted(m)
    ensures forall k :: k in Released(m, ports, stamp) <==>
                        k in Table(m) && k !in ports && (Table(m)[k].None? || Table(m)[k].value < stamp)
    ensures forall i, j :: 0 <= i < j < |Released(m, ports, stamp)| ==>
                             Less(Released(m, ports, stamp)[i], Released(m, ports, stamp)[j])
  {
    if m != [] {
      ReleasedPorts(m[1..], ports, stamp);
      HeadIsLeast(m);
    }
  }

  // ---------------------------------------------------------------- the host's side

  /** A transaction on the host channel, with the host's answer. */
  datatype HostRequest = HostRequest(port: PortAllocation, allocate: bool, result: int)

  /** Ports the host granted and has not been asked to take back. */
  function Held(log: seq<HostRequest>): set<PortAllocation> {
    if log == [] then {} else
      var before, r := Held(log[..|log| - 1]), log[|log| - 1];
      if !r.allocate then before - {r.port} else if r.result == 0 then before + {r.port} else before
  }

  /** Ports the host has reserved: a release it refuses changes nothing there. */
  function Reserved(log: seq<HostRequest>): set<PortAllocation> {
    if log == [] then {} else
      var before, r := Reserved(log[..|log| - 1]), log[|log| - 1];
      if r.result != 0 then before else if r.allocate then before + {r.port} else before - {r.port}
  }

  /** No port is asked for while held, and none is given back while not held. */
  ghost predicate Disciplined(log: seq<HostRequest>) {
    forall i :: 0 <= i < |log| ==> (log[i].allocate <==> log[i].port !in Held(log[..i]))
  }

  /** The release of `port` at `i` was refused, and no request about it has succeeded since. */
  predicate RefusedRelease(log: seq<HostRequest>, port: PortAllocation, i: int) {
    && 0 <= i < |log| && log[i].port == port && !log[i].allocate && log[i].result != 0
    && forall j :: i < j < |log| && log[j].port == port ==> log[j].result != 0
  }

  lemma RefusedNext(before: seq<HostRequest>, r: HostRequest, port: PortAllocation, i: int)
    ensures RefusedRelease(before + [r], port, i) <==>
            if r.port == port && r.result == 0 then false
            else if i == |before| then r.port == port && !r.allocate
            else RefusedRelease(before, port, i)
  {
    var log := before + [r];
    assert log[|before|] == r && forall j :: 0 <= j < |before| ==> log[j] == before[j];
  }

  /** The host keeps exactly the ports that are held and those whose release it refused. */
  lemma {:induction false} HeldIsReserved(log: seq<HostRequest>, port: PortAllocation)
    requires Disciplined(log)
    ensures port in Reserved(log) <==> port in Held(log) || exists i :: RefusedRelease(log, port, i)
    ensures port in Held(log) ==> forall i :: !RefusedRelease(log, port, i)
  {
    if log != [] {
      var before, r := log[..|log| - 1], log[|log| - 1];
      hide Disciplined, RefusedRelease;
      DisciplinedBefore(log);
      HeldIsReserved(before, port);
      HeldNext(before, r, port);
      assert log == before + [r];
    }
  }

  lemma HeldNext(before: seq<HostRequest>, r: HostRequest, port: PortAllocation)
    requires port in Reserved(before) <==> port in Held(before) || exists i :: RefusedRelease(before, port, i)
    requires port in Held(before) ==> forall i :: !RefusedRelease(before, port, i)
    requires r.allocate <==> r.port !in Held(before)
    ensures var log := before + [r];
            && (port in Reserved(log) <==> port in Held(log) || exists i :: RefusedRelease(log, port, i))
            && (port in Held(log) ==> forall i :: !RefusedRelease(log, port, i))
  {
    var log := before + [r];
    assert log[..|before|] == before;
    forall i ensures RefusedRelease(log, port, i) <==> if r.port == port && r.result == 0 then false
                     else if i == |before| then r.port == port && !r.allocate else RefusedRelease(before, port, i) {
      RefusedNext(before, r, port, i);
    }
    if r.port == port && !r.allocate && r.result != 0 {
      assert RefusedRelease(log, port, |before|);
    } else if exists i :: RefusedRelease(before, port, i) {
      var i :| RefusedRelease(before, port, i);
      assert i != |before|;
    }
  }

  /** The tracker and the host agree exactly when no refused release is outstanding. */
  lemma HeldEqualsReserved(log: seq<HostRequest>)
    requires Disciplined(log)
    ensures Held(log) == Reserved(log) <==> forall port, i :: !RefusedRelease(log, port, i)
  {
    forall port ensures port in Reserved(log) <==> port in Held(log) || exists i :: RefusedRelease(log, port, i) {
      HeldIsReserved(log, port);
    }
    if port, i :| RefusedRelease(log, port, i) {
      HeldIsReserved(log, port);
      assert port in Reserved(log) && port !in Held(log);
    }
  }

  /** Two requests after which the host still reserves a port that the tracker has forgotten. */
  lemma RefusedReleaseLeaks(port: PortAllocation)
    ensures var log := [HostRequest(port, true, 0), HostRequest(port, false, -1)];
            Disciplined(log) && Held(log) == {} && Reserved(log) == {port}
  {
    var grant, refusal := HostRequest(port, true, 0), HostRequest(port, false, -1);
    DisciplinedGrows([], grant);
    DisciplinedGrows([grant], refusal);
    assert [] + [grant] == [grant] && [grant] + [refusal] == [grant, refusal];
    assert Held([grant]) == {port} && Reserved([grant]) == {port};
    assert [grant, refusal][..1] == [grant];
  }

  /** The granted allocations and the releases of one port, in order. */
  function Turns(log: seq<HostRequest>, port: PortAllocation): seq<bool> {
    if log == [] then [] else
      var before, r := Turns(log[..|log| - 1], port), log[|log| - 1];
      if r.port == port && (r.allocate ==> r.result == 0) then before + [r.allocate] else before
  }

  /** They alternate, starting with an allocation, and the port is held after the odd ones. */
  lemma {:induction false} RequestsAlternate(log: seq<HostRequest>, port: PortAllocation)
    requires Disciplined(log)
    ensures forall i :: 0 <= i < |Turns(log, port)| ==> (Turns(log, port)[i] <==> i % 2 == 0)
    ensures port in Held(log) <==> |Turns(log, port)| % 2 == 1
  {
    if log != [] {
      hide Disciplined;
      DisciplinedBefore(log);
      RequestsAlternate(log[..|log| - 1], port);
    }
  }

  lemma DisciplinedBefore(log: seq<HostRequest>)
    requires Disciplined(log) && log != []
    ensures var before, r := log[..|log| - 1], log[|log| - 1];
            Disciplined(before) && (r.allocate <==> r.port !in Held(before))
  {
    var before := log[..|log| - 1];
    assert forall i :: 0 <= i < |before| ==> before[..i] == log[..i];
  }

  lemma DisciplinedGrows(log: seq<HostRequest>, r: HostRequest)
    requires Disciplined(log) && (r.allocate <==> r.port !in Held(log))
    ensures Disciplined(log + [r])
    ensures Held(log + [r]) == if !r.allocate then Held(log) - {r.port} else if r.result == 0 then Held(log) + {r.port} else Held(log)
  {
    var after := log + [r];
    assert after[..|log|] == log;
    forall i | 0 <= i < |after| ensures after[i].allocate <==> after[i].port !in Held(after[..i]) {
      if i < |log| {
        assert after[..i] == log[..i] && after[i] == log[i];
      }
    }
  }

  // ---------------------------------------------------------------- what happened to a port

  datatype Event =
    | Granted(port: PortAllocation, time: int)
    | Repeated(port: PortAllocation, time: int)
    | Applied(ports: set<PortAllocation>, stamp: int)

  /** When the port was last granted. A repeated bind is not a new grant. */
  function GrantedAt(h: seq<Event>, port: PortAllocation): Option<int> {
    if h == [] then None else
      match h[|h| - 1]
      case Granted(p, t) => if p == port then Some(t) else GrantedAt(h[..|h| - 1], port)
      case _ => GrantedAt(h[..|h| - 1], port)
  }

  /** Whether a snapshot applied since then contained it. */
  predicate SeenSince(h: seq<Event>, port: PortAllocation) {
    h != [] &&
    match h[|h| - 1]
    case Granted(p, _) => p != port && SeenSince(h[..|h| - 1], port)
    case Repeated(_, _) => SeenSince(h[..|h| - 1], port)
    case Applied(ports, _) => port in ports || SeenSince(h[..|h| - 1], port)
  }

  /** Every deadline is explained by the history: none once seen, otherwise a
      minute after the grant, however often the port was bound again. */
  ghost predicate Explained(h: seq<Event>, t: map<PortAllocation, Option<int>>) {
    forall k :: k in t ==>
      && GrantedAt(h, k).Some?
      && t[k] == if SeenSince(h, k) then None else Some(GrantedAt(h, k).value + BIND_TIMEOUT)
  }

  lemma ExplainedGrows(h: seq<Event>, t: map<PortAllocation, Option<int>>, e: Event)
    requires Explained(h, t)
    ensures e.Granted? && e.port !in t ==> Explained(h + [e], t[e.port := Some(e.time + BIND_TIMEOUT)])
    ensures e.Repeated? ==> Explained(h + [e], t)
    ensures e.Applied? ==> Explained(h + [e], Kept(t, e.ports, e.stamp))
  {
    assert (h + [e])[..|h|] == h;
  }

  /** At `i` the port was granted, and not again since. */
  predicate LastGrant(h: seq<Event>, port: PortAllocation, i: int) {
    0 <= i < |h| && h[i].Granted? && h[i].port == port && forall j :: i < j < |h| ==> !(h[j].Granted? && h[j].port == port)
  }

  /** A snapshot applied later than that contained it. */
  predicate SeenAt(h: seq<Event>, port: PortAllocation, i: int, j: int) {
    i < j < |h| && j >= 0 && h[j].Applied? && port in h[j].ports
  }

  /** The two recursions look for exactly that. */
  lemma {:induction false} HistoryIsRead(h: seq<Event>, port: PortAllocation, i: int)
    requires LastGrant(h, port, i)
    ensures GrantedAt(h, port) == Some(h[i].time)
    ensures SeenSince(h, port) <==> exists j :: SeenAt(h, port, i, j)
  {
    var n := |h| - 1;
    var before := h[..n];
    if i < n {
      assert LastGrant(before, port, i);
      HistoryIsRead(before, port, i);
      if j :| SeenAt(before, port, i, j) {
        assert SeenAt(h, port, i, j);
      }
      if j :| SeenAt(h, port, i, j) {
        assert j == n || SeenAt(before, port, i, j);
      }
      if h[n].Applied? && port in h[n].ports {
        assert SeenAt(h, port, i, n);
      }
    }
  }

  lemma {:induction false} GrantIsFound(h: seq<Event>, port: PortAllocation)
    requires GrantedAt(h, port).Some?
    ensures exists i :: LastGrant(h, port, i)
  {
    var n := |h| - 1;
    if h[n].Granted? && h[n].port == port {
      assert LastGrant(h, port, n);
    } else {
      GrantIsFound(h[..n], port);
      var i :| LastGrant(h[..n], port, i);
      assert LastGrant(h, port, i);
    }
  }

  /** The rule of the comment in OnRefreshAllocatedPorts, over the history. */
  ghost predicate ReleasedByRule(h: seq<Event>, before: map<PortAllocation, Option<int>>, after: map<PortAllocation, Option<int>>,
                                 ports: set<PortAllocation>, stamp: int) {
    forall k :: k in before ==> exists i :: LastGrant(h, k, i) && RuledSince(h, k, i, k in after, ports, stamp)
  }

  /** The port is dropped exactly if the snapshot lacks it and it was seen in an earlier one,
      or the snapshot is more than a minute younger than the grant. */
  ghost predicate RuledSince(h: seq<Event>, port: PortAllocation, i: int, stays: bool, ports: set<PortAllocation>, stamp: int)
    requires LastGrant(h, port, i)
  {
    !stays <==> port !in ports && ((exists j :: SeenAt(h, port, i, j)) || stamp > h[i].time + 60)
  }

  lemma ReleaseRule(h: seq<Event>, t: map<PortAllocation, Option<int>>, ports: set<PortAllocation>, stamp: int)
    requires Explained(h, t)
    ensures ReleasedByRule(h, t, Kept(t, ports, stamp), ports, stamp)
  {
    var after := Kept(t, ports, stamp);
    forall k | k in t ensures exists i :: LastGrant(h, k, i) && RuledSince(h, k, i, k in after, ports, stamp) {
      GrantIsFound(h, k);
      var i :| LastGrant(h, k, i);
      HistoryIsRead(h, k, i);
      assert RuledSince(h, k, i, k in after, ports, stamp);
    }
  }

  // ---------------------------------------------------------------- the tracker

  class PortTracker {
    var allocatedPorts: seq<Entry>
    ghost var requests: seq<HostRequest>
    ghost var history: seq<Event>

    ghost predicate Valid()
      reads this
    {
      && Sorted(allocatedPorts)
      && Disciplined(requests)
      && Keys(allocatedPorts) == Held(requests)
      && Explained(history, Table(allocatedPorts))
    }

    constructor ()
      ensures Valid() && allocatedPorts == [] && requests == [] && history == []
    {
      allocatedPorts, requests, history := [], [], [];
    }

    /** RequestPort: one transaction; the host's answer is its own. */
    method RequestPort(port: PortAllocation, allocate: bool) returns (result: int)
      modifies this`requests
      ensures requests == old(requests) + [HostRequest(port, allocate, result)]
    {
      result := *;
      requests := requests + [HostRequest(port, allocate, result)];
    }

    /** HandleRequest: a port already held goes through without asking. */
    method HandleRequest(port: PortAllocation) returns (result: int)
      requires Sorted(allocatedPorts) && Disciplined(requests) && Keys(allocatedPorts) == Held(requests)
      modifies this`requests
      ensures Disciplined(requests)
      ensures port in Keys(allocatedPorts) ==> result == 0 && requests == old(requests)
      ensures port !in Keys(allocatedPorts) ==> requests == old(requests) + [HostRequest(port, true, result)]
      ensures Held(requests) == Keys(allocatedPorts) + if result == 0 then {port} else {}
    {
      if exists i :: 0 <= i < |allocatedPorts| && allocatedPorts[i].port == port {
        return 0;
      }
      result := RequestPort(port, true);
      DisciplinedGrows(old(requests), HostRequest(port, true, result));
    }

    /** One bind call, as Run handles it. */
    method OnBind(port: PortAllocation, now: int) returns (result: int)
      requires Valid()
      modifies this
      ensures Valid()
      ensures result != 0 ==> allocatedPorts == old(allocatedPorts) && history == old(history)
      ensures result == 0 && port in old(Table(allocatedPorts)) ==>
                && Table(allocatedPorts) == old(Table(allocatedPorts))
                && requests == old(requests)
                && history == old(history) + [Repeated(port, now)]
      ensures result == 0 && port !in old(Table(allocatedPorts)) ==>
                && Table(allocatedPorts) == old(Table(allocatedPorts))[port := Some(now + BIND_TIMEOUT)]
                && history == old(history) + [Granted(port, now)]
      ensures port !in old(Table(allocatedPorts)) ==> requests == old(requests) + [HostRequest(port, true, result)]
    {
      TableEntries(allocatedPorts);
      result := HandleRequest(port);
      if result == 0 {
        Track(port, now);
      }
    }

    /** The emplace that follows a request that may go through. */
    method Track(port: PortAllocation, now: int)
      requires Sorted(allocatedPorts) && Explained(history, Table(allocatedPorts))
      modifies this`allocatedPorts, this`history
      ensures Sorted(allocatedPorts) && Explained(history, Table(allocatedPorts))
      ensures Keys(allocatedPorts) == old(Keys(allocatedPorts)) + {port}
      ensures port in old(Table(allocatedPorts)) ==>
                Table(allocatedPorts) == old(Table(allocatedPorts)) && history == old(history) + [Repeated(port, now)]
      ensures port !in old(Table(allocatedPorts)) ==>
                && Table(allocatedPorts) == old(Table(allocatedPorts))[port := Some(now + BIND_TIMEOUT)]
                && history == old(history) + [Granted(port, now)]
    {
      ghost var t := Table(allocatedPorts);
      var e := Entry(port, Some(now + BIND_TIMEOUT));
      EmplaceAll(allocatedPorts, e);
      ghost var event := if port in t then Repeated(port, now) else Granted(port, now);
      ExplainedGrows(history, t, event);
      history := history + [event];
      allocatedPorts := Emplace(allocatedPorts, e);
    }

    /** OnRefreshAllocatedPorts: walks the map, erasing as it goes. A port is
        given back exactly when the snapshot lacks it and it was seen bound before
        or its minute is over; a refused release is forgotten all the same. */
    method OnRefreshAllocatedPorts(ports: set<PortAllocation>, stamp: int)
      requires Valid()
      modifies this
      ensures Valid()
      ensures Table(allocatedPorts) == Kept(old(Table(allocatedPorts)), ports, stamp)
      ensures history == old(history) + [Applied(ports, stamp)]
      ensures |requests| >= |old(requests)| && requests[..|old(requests)|] == old(requests)
      ensures AskedBack(requests[|old(requests)|..], [], Released(old(allocatedPorts), ports, stamp))
      ensures ReleasedByRule(old(history), old(Table(allocatedPorts)), Table(allocatedPorts), ports, stamp)
    {
      RefreshedTable(allocatedPorts, ports, stamp);
      ExplainedGrows(history, Table(allocatedPorts), Applied(ports, stamp));
      ReleaseRule(history, Table(allocatedPorts), ports, stamp);
      Walk(ports, stamp);
      history := history + [Applied(ports, stamp)];
    }

    method Walk(ports: set<PortAllocation>, stamp: int)
      requires Sorted(allocatedPorts) && Disciplined(requests) && Keys(allocatedPorts) == Held(requests)
      modifies this`allocatedPorts, this`requests
      ensures Sorted(allocatedPorts) && Disciplined(requests) && Keys(allocatedPorts) == Held(requests)
      ensures allocatedPorts == Refreshed(old(allocatedPorts), ports, stamp)
      ensures |requests| >= |old(requests)| && requests[..|old(requests)|] == old(requests)
      ensures AskedBack(requests[|old(requests)|..], [], Released(old(allocatedPorts), ports, stamp))
    {
      ghost var n, all := |requests|, Released(allocatedPorts, ports, stamp);
      var it: nat := 0;
      while it < |allocatedPorts|
        invariant it <= |allocatedPorts|
        invariant Sorted(allocatedPorts) && Disciplined(requests) && Keys(allocatedPorts) == Held(requests)
        invariant allocatedPorts[..it] + Refreshed(allocatedPorts[it..], ports, stamp) == Refreshed(old(allocatedPorts), ports, stamp)
        invariant n <= |requests| && requests[..n] == old(requests)
        invariant AskedBack(requests[n..], Released(allocatedPorts[it..], ports, stamp), all)
        decreases |allocatedPorts| - it
      {
        it := Visit(it, ports, stamp, n, all);
      }
      assert allocatedPorts[..it] == allocatedPorts;
    }

    /** The body of the walk at one entry. */
    method Visit(it: nat, ports: set<PortAllocation>, stamp: int, ghost n: nat, ghost all: seq<PortAllocation>) returns (next: nat)
      requires it < |allocatedPorts|
      requires Sorted(allocatedPorts) && Disciplined(requests) && Keys(allocatedPorts) == Held(requests)
      requires n <= |requests| && AskedBack(requests[n..], Released(allocatedPorts[it..], ports, stamp), all)
      modifies this`allocatedPorts, this`requests
      ensures next <= |allocatedPorts| && |allocatedPorts| - next < |old(allocatedPorts)| - it
      ensures Sorted(allocatedPorts) && Disciplined(requests) && Keys(allocatedPorts) == Held(requests)
      ensures allocatedPorts[..next] + Refreshed(allocatedPorts[next..], ports, stamp) ==
              old(allocatedPorts)[..it] + Refreshed(old(allocatedPorts)[it..], ports, stamp)
      ensures n <= |requests| && requests[..n] == old(requests)[..n]
      ensures AskedBack(requests[n..], Released(allocatedPorts[next..], ports, stamp), all)
    {
      ghost var m := allocatedPorts;
      WalkStep(m, it, ports, stamp);
      if allocatedPorts[it].port !in ports {
        if allocatedPorts[it].deadline.None? || allocatedPorts[it].deadline.value < stamp {
          GiveBack(it, n, Released(m[it + 1..], ports, stamp), all);
          assert allocatedPorts[it..] == m[it + 1..] && allocatedPorts[..it] == m[..it];
          return it;
        }
      } else {
        SetAt(m, it, None);
        allocatedPorts := allocatedPorts[it := allocatedPorts[it].(deadline := None)];
      }
      assert allocatedPorts[it + 1..] == m[it + 1..];
      assert allocatedPorts[..it + 1] == m[..it] + [allocatedPorts[it]];
      return it + 1;
    }

    /** Asks the host to take one port back and forgets it, whatever the answer. */
    method GiveBack(it: nat, ghost n: nat, ghost left: seq<PortAllocation>, ghost all: seq<PortAllocation>)
      requires it < |allocatedPorts|
      requires Sorted(allocatedPorts) && Disciplined(requests) && Keys(allocatedPorts) == Held(requests)
      requires n <= |requests| && AskedBack(requests[n..], [allocatedPorts[it].port] + left, all)
      modifies this`allocatedPorts, this`requests
      ensures allocatedPorts == old(allocatedPorts[..it] + allocatedPorts[it + 1..])
      ensures Sorted(allocatedPorts) && Disciplined(requests) && Keys(allocatedPorts) == Held(requests)
      ensures n <= |requests| && requests[..n] == old(requests)[..n]
      ensures AskedBack(requests[n..], left, all)
    {
      ghost var port := allocatedPorts[it].port;
      EraseAt(allocatedPorts, it);
      var result := RequestPort(allocatedPorts[it].port, false);
      DisciplinedGrows(old(requests), HostRequest(port, false, result));
      AskedBackGrows(old(requests)[n..], requests[n..], left, all, port);
      allocatedPorts := allocatedPorts[..it] + allocatedPorts[it + 1..];
    }
  }

  /** The two recursive walks unfolded at position `it`. */
  lemma WalkStep(m: seq<Entry>, it: nat, ports: set<PortAllocation>, stamp: int)
    requires it < |m|
    ensures Refreshed(m[it..], ports, stamp) ==
            (if Releases(m[it], ports, stamp) then []
             else [if m[it].port in ports then m[it].(deadline := None) else m[it]]) + Refreshed(m[it + 1..], ports, stamp)
    ensures Released(m[it..], ports, stamp) ==
            (if Releases(m[it], ports, stamp) then [m[it].port] else []) + Released(m[it + 1..], ports, stamp)
  {
    assert m[it..][0] == m[it] && m[it..][1..] == m[it + 1..];
  }

  /** The releases sent so far, followed by those to come, are all of them. */
  ghost predicate AskedBack(sent: seq<HostRequest>, left: seq<PortAllocation>, all: seq<PortAllocation>) {
    && |sent| + |left| == |all|
    && all[|sent|..] == left
    && forall i :: 0 <= i < |sent| ==> !sent[i].allocate && sent[i].port == all[i]
  }

  lemma AskedBackGrows(sent: seq<HostRequest>, sent': seq<HostRequest>, left': seq<PortAllocation>, all: seq<PortAllocation>, port: PortAllocation)
    requires AskedBack(sent, [port] + left', all)
    requires |sent'| == |sent| + 1 && sent'[..|sent|] == sent && sent'[|sent|].port == port && !sent'[|sent|].allocate
    ensures AskedBack(sent', left', all)
  {
    assert all[|sent'|..] == all[|sent|..][1..];
    assert all[|sent|] == port;
    assert forall i :: 0 <= i < |sent| ==> sent'[i] == sent[i];
  }

  lemma EraseAt(m: seq<Entry>, i: nat)
    requires Sorted(m) && i < |m|
    ensures Sorted(m[..i] + m[i + 1..])
    ensures Keys(m[..i] + m[i + 1..]) == Keys(m) - {m[i].port}
    ensures m[i].port in Keys(m)
  {
    var r := m[..i] + m[i + 1..];
    forall j | 0 <= j < |r| ensures r[j].port in Keys(m) - {m[i].port} {
      var j' := if j < i then j else j + 1;
      assert r[j] == m[j'];
      LessIsStrictTotal(m[i].port, m[j'].port);
    }
    forall j | 0 <= j < |m| && j != i ensures m[j].port in Keys(r) {
      var j' := if j < i then j else j - 1;
      assert r[j'] == m[j];
    }
  }

  lemma SetAt(m: seq<Entry>, i: nat, d: Option<int>)
    requires Sorted(m) && i < |m|
    ensures Sorted(m[i := m[i].(deadline := d)])
    ensures Keys(m[i := m[i].(deadline := d)]) == Keys(m)
  {
    var r := m[i := m[i].(deadline := d)];
    assert forall j :: 0 <= j < |m| ==> r[j].port == m[j].port;
  }
}
