/** The FreeBSD localhost port tracker (FreeBSD/port_tracker.h): snapshots are
    sorted and deduplicated in place and compared with the last one, and the
    differences are sent to the host, which mirrors the set of listening ports. */
module RelayTracker {
  import opened Sockets
  import opened PortAllocations
  import opened Wrappers

  datatype EntryRecord = EntryRecord(family: nat, port: nat, addr: seq<byte>)

  type PortEntry = e: EntryRecord | |e.addr| == 16 witness EntryRecord(0, 0, seq(16, _ => 0))

  // ---------------------------------------------------------------- order

  /** port_entry_cmp. */
  function Cmp(a: PortEntry, b: PortEntry): int {
    if a.family != b.family then a.family - b.family
    else if a.port != b.port then a.port - b.port
    else MemCmp(a.addr, b.addr)
  }

  lemma CmpIsTotalOrder(a: PortEntry, b: PortEntry)
    ensures Cmp(a, b) == 0 <==> a == b
    ensures Cmp(a, b) < 0 <==> Cmp(b, a) > 0
  {
    MemCmpOrder(a.addr, b.addr);
  }

  lemma CmpIsTransitive(a: PortEntry, b: PortEntry, c: PortEntry)
    requires Cmp(a, b) <= 0 && Cmp(b, c) <= 0
    ensures Cmp(a, c) <= 0
    ensures Cmp(a, b) < 0 || Cmp(b, c) < 0 ==> Cmp(a, c) < 0
  {
    CmpIsTotalOrder(a, b);
    CmpIsTotalOrder(b, c);
    if Cmp(a, b) < 0 && Cmp(b, c) < 0 && a.family == c.family && a.port == c.port {
      MemCmpTransitive(a.addr, b.addr, c.addr);
    }
  }

  ghost predicate Ascending(s: seq<PortEntry>) {
    forall i, j :: 0 <= i < j < |s| ==> Cmp(s[i], s[j]) <= 0
  }

  ghost predicate Strict(s: seq<PortEntry>) {
    forall i, j :: 0 <= i < j < |s| ==> Cmp(s[i], s[j]) < 0
  }

  // ---------------------------------------------------------------- sorting

  function Insert(e: PortEntry, s: seq<PortEntry>): seq<PortEntry> {
    if s == [] || Cmp(e, s[0]) <= 0 then [e] + s else [s[0]] + Insert(e, s[1..])
  }

  /** The ascending arrangement of `s`. */
  function Ordered(s: seq<PortEntry>): (r: seq<PortEntry>) {
    if s == [] then [] else Insert(s[0], Ordered(s[1..]))
  }

  lemma {:induction false} InsertElements(e: PortEntry, s: seq<PortEntry>)
    ensures multiset(Insert(e, s)) == multiset(s) + multiset{e}
  {
    if s != [] && Cmp(e, s[0]) > 0 {
      InsertElements(e, s[1..]);
      assert s == [s[0]] + s[1..];
    }
  }

  lemma {:induction false} InsertAscending(e: PortEntry, s: seq<PortEntry>)
    requires Ascending(s)
    ensures Ascending(Insert(e, s))
  {
    if s == [] {
    } else if Cmp(e, s[0]) <= 0 {
      forall j | 0 <= j < |s| ensures Cmp(e, s[j]) <= 0 {
        if j > 0 {
          CmpIsTransitive(e, s[0], s[j]);
        }
      }
    } else {
      InsertAscending(e, s[1..]);
      CmpIsTotalOrder(e, s[0]);
      var r := Insert(e, s[1..]);
      InsertElements(e, s[1..]);
      forall j | 0 <= j < |r| ensures Cmp(s[0], r[j]) <= 0 {
        assert r[j] in multiset(r);
        assert r[j] == e || r[j] in s[1..];
      }
    }
  }

  lemma {:induction false} OrderedAscending(s: seq<PortEntry>)
    ensures Ascending(Ordered(s))
    ensures multiset(Ordered(s)) == multiset(s)
    ensures |Ordered(s)| == |s|
  {
    if s != [] {
      OrderedAscending(s[1..]);
      InsertAscending(s[0], Ordered(s[1..]));
      InsertElements(s[0], Ordered(s[1..]));
      assert s == [s[0]] + s[1..];
      assert |multiset(Ordered(s))| == |s|;
    }
  }

  /** Ascending arrangements are unique, so it does not matter how qsort finds its own. */
  lemma {:induction false} OneArrangement(a: seq<PortEntry>, b: seq<PortEntry>)
    requires Ascending(a) && Ascending(b) && multiset(a) == multiset(b)
    ensures a == b
  {
    if a == [] {
      assert |multiset(b)| == 0;
    } else {
      SameFirst(a, b);
      WithoutFirst(a);
      WithoutFirst(b);
      var a', b' := a[1..], b[1..];
      assert a == [a[0]] + a' && b == [a[0]] + b';
      OneArrangement(a', b');
    }
  }

  lemma SameFirst(a: seq<PortEntry>, b: seq<PortEntry>)
    requires Ascending(a) && Ascending(b) && multiset(a) == multiset(b) && a != []
    ensures b != [] && a[0] == b[0]
  {
    assert a[0] in multiset(b) && |b| > 0;
    assert b[0] in multiset(a);
    FirstIsLeast(a, b[0]);
    FirstIsLeast(b, a[0]);
    CmpIsTotalOrder(a[0], b[0]);
  }

  lemma FirstIsLeast(a: seq<PortEntry>, e: PortEntry)
    requires Ascending(a) && e in a
    ensures Cmp(a[0], e) <= 0
  {
    CmpIsTotalOrder(e, e);
  }

  lemma WithoutFirst(a: seq<PortEntry>)
    requires a != []
    ensures multiset(a[1..]) == multiset(a) - multiset{a[0]}
  {
    assert a == [a[0]] + a[1..];
  }

  function Elements(s: seq<PortEntry>): set<PortEntry> {
    set e | e in s
  }

  /** The library's qsort with port_entry_cmp: known here by what it leaves behind. */
  method QSort(arr: array<PortEntry>, n: nat)
    requires n <= arr.Length
    modifies arr
    ensures arr[..n] == Ordered(old(arr[..n]))
    ensures forall k :: n <= k < arr.Length ==> arr[k] == old(arr[k])
  {
    var s := Ordered(arr[..n]);
    OrderedAscending(arr[..n]);
    forall i | 0 <= i < n {
      arr[i] := s[i];
    }
  }

  /** port_entry_dedup_sort. */
  method DedupSort(arr: array<PortEntry>, n: nat) returns (out: nat)
    requires n <= arr.Length
    modifies arr
    ensures out <= n
    ensures Strict(arr[..out])
    ensures Elements(arr[..out]) == Elements(old(arr[..n]))
    ensures forall k :: n <= k < arr.Length ==> arr[k] == old(arr[k])
  {
    if n == 0 {
      return 0;
    }
    OrderedAscending(arr[..n]);
    SameElements(Ordered(arr[..n]), arr[..n]);
    ghost var s := Ordered(arr[..n]);
    QSort(arr, n);
    out := DedupSorted(arr, n);
    DedupStrict(s);
    DedupElements(s);
  }

  /** The loop that drops repetitions from an ascending array. */
  method DedupSorted(arr: array<PortEntry>, n: nat) returns (out: nat)
    requires 0 < n <= arr.Length
    modifies arr
    ensures out <= n
    ensures arr[..out] == Dedup(old(arr[..n]))
    ensures forall k :: n <= k < arr.Length ==> arr[k] == old(arr[k])
  {
    hide Dedup;
    ghost var s := arr[..n];
    out := 1;
    assert s[..1] == [s[0]] && arr[..1] == [s[0]];
    DedupOne(s[0]);
    for i := 1 to n
      invariant 1 <= out <= i
      invariant forall k :: i <= k < n ==> arr[k] == s[k]
      invariant forall k :: n <= k < arr.Length ==> arr[k] == old(arr[k])
      invariant arr[..out] == Dedup(s[..i])
    {
      assert arr[out - 1] == arr[..out][out - 1];
      DedupNext(s, i);
      out := KeepIfNew(arr, out, i);
    }
    assert s[..n] == s;
  }

  /** The body of that loop. */
  method KeepIfNew(arr: array<PortEntry>, out: nat, i: nat) returns (next: nat)
    requires 0 < out <= i < arr.Length
    modifies arr
    ensures next == if old(arr[out - 1] == arr[i]) then out else out + 1
    ensures arr[..next] == old(arr[..out]) + if next == out then [] else [old(arr[i])]
    ensures forall k :: i < k < arr.Length ==> arr[k] == old(arr[k])
  {
    CmpIsTotalOrder(arr[out - 1], arr[i]);
    next := out;
    if Cmp(arr[out - 1], arr[i]) != 0 {
      arr[out] := arr[i];
      next := out + 1;
    }
  }

  /** Repetitions of the last kept element are dropped. */
  function Dedup(s: seq<PortEntry>): seq<PortEntry> {
    if s == [] then [] else
      var d, e := Dedup(s[..|s| - 1]), s[|s| - 1];
      if d != [] && d[|d| - 1] == e then d else d + [e]
  }

  lemma DedupOne(e: PortEntry)
    ensures Dedup([e]) == [e]
  {
  }

  lemma DedupNext(s: seq<PortEntry>, i: nat)
    requires 0 < i < |s|
    ensures var d := Dedup(s[..i]);
            d != [] && Dedup(s[..i + 1]) == if d[|d| - 1] == s[i] then d else d + [s[i]]
  {
    assert s[..i + 1][..i] == s[..i] && s[..i + 1][i] == s[i];
  }

  lemma {:induction false} DedupElements(s: seq<PortEntry>)
    ensures Elements(Dedup(s)) == Elements(s)
    ensures s != [] ==> Dedup(s) != [] && Dedup(s)[|Dedup(s)| - 1] == s[|s| - 1]
  {
    if s != [] {
      var t, e := s[..|s| - 1], s[|s| - 1];
      var d := Dedup(t);
      DedupElements(t);
      assert s == t + [e];
      ElementsSnoc(t, e);
      ElementsSnoc(d, e);
    }
  }

  lemma ElementsSnoc(s: seq<PortEntry>, e: PortEntry)
    ensures Elements(s + [e]) == Elements(s) + {e}
  {
  }

  lemma StrictSnoc(d: seq<PortEntry>, e: PortEntry)
    requires Strict(d) && (d == [] || Cmp(d[|d| - 1], e) < 0)
    ensures Strict(d + [e])
  {
    forall k | 0 <= k < |d| ensures Cmp(d[k], e) < 0 {
      if k < |d| - 1 {
        CmpIsTransitive(d[k], d[|d| - 1], e);
      }
    }
  }

  lemma {:induction false} DedupStrict(s: seq<PortEntry>)
    requires Ascending(s)
    ensures Strict(Dedup(s))
  {
    if s != [] {
      var t, e := s[..|s| - 1], s[|s| - 1];
      var d := Dedup(t);
      DedupStrict(t);
      DedupElements(t);
      if t != [] {
        assert Cmp(s[|s| - 2], s[|s| - 1]) <= 0;
        CmpIsTotalOrder(t[|t| - 1], e);
      }
      if d == [] || d[|d| - 1] != e {
        StrictSnoc(d, e);
      }
    }
  }

  lemma SameElements(a: seq<PortEntry>, b: seq<PortEntry>)
    requires multiset(a) == multiset(b)
    ensures Elements(a) == Elements(b)
  {
    forall e ensures e in a <==> e in b {
      assert e in a <==> e in multiset(a);
      assert e in b <==> e in multiset(b);
    }
  }

  // ---------------------------------------------------------------- the difference of two snapshots

  datatype Message = Message(start: bool, entry: PortEntry)

  /** What walking both arrays sends. */
  function Diff(current: seq<PortEntry>, before: seq<PortEntry>): seq<Message>
    decreases |current| + |before|
  {
    if current == [] && before == [] then []
    else
      var cmp := if current == [] then 1 else if before == [] then -1 else Cmp(current[0], before[0]);
      if cmp < 0 then [Message(true, current[0])] + Diff(current[1..], before)
      else if cmp > 0 then [Message(false, before[0])] + Diff(current, before[1..])
      else Diff(current[1..], before[1..])
  }

  /** The messages about one entry, as starts and stops. */
  function Turns(ms: seq<Message>, e: PortEntry): seq<bool> {
    if ms == [] then [] else (if ms[0].entry == e then [ms[0].start] else []) + Turns(ms[1..], e)
  }

  lemma {:induction false} TurnsAppend(a: seq<Message>, b: seq<Message>, e: PortEntry)
    ensures Turns(a + b, e) == Turns(a, e) + Turns(b, e)
  {
    if a == [] {
      assert a + b == b;
    } else {
      assert (a + b)[1..] == a[1..] + b;
      TurnsAppend(a[1..], b, e);
    }
  }

  lemma NotBelowFirst(s: seq<PortEntry>, e: PortEntry)
    requires Strict(s) && (s == [] || Cmp(e, s[0]) < 0)
    ensures e !in s
  {
    forall j | 0 <= j < |s| ensures s[j] != e {
      if j > 0 {
        CmpIsTransitive(e, s[0], s[j]);
      }
      CmpIsTotalOrder(e, s[j]);
    }
  }

  lemma OnlyFirst(s: seq<PortEntry>)
    requires Strict(s) && s != []
    ensures s[0] !in s[1..]
  {
    forall j | 1 <= j < |s| ensures s[j] != s[0] {
      CmpIsTotalOrder(s[0], s[j]);
    }
  }

  /** One start for an entry that is new, one stop for one that is gone, nothing
      for one that stays or was never there. */
  lemma {:induction false} DiffIsDifference(current: seq<PortEntry>, before: seq<PortEntry>, e: PortEntry)
    requires Strict(current) && Strict(before)
    ensures Turns(Diff(current, before), e) ==
            if e in current && e !in before then [true]
            else if e in before && e !in current then [false]
            else []
    decreases |current| + |before|
  {
    hide Cmp;
    if current == [] && before == [] {
    } else if before == [] || (current != [] && Cmp(current[0], before[0]) < 0) {
      NotBelowFirst(before, current[0]);
      OnlyFirst(current);
      DiffIsDifference(current[1..], before, e);
      assert current == [current[0]] + current[1..];
    } else if current == [] || Cmp(current[0], before[0]) > 0 {
      if current != [] {
        CmpIsTotalOrder(before[0], current[0]);
      }
      NotBelowFirst(current, before[0]);
      OnlyFirst(before);
      DiffIsDifference(current, before[1..], e);
      assert before == [before[0]] + before[1..];
    } else {
      CmpIsTotalOrder(current[0], before[0]);
      OnlyFirst(current);
      OnlyFirst(before);
      DiffIsDifference(current[1..], before[1..], e);
      assert current == [current[0]] + current[1..] && before == [before[0]] + before[1..];
    }
  }

  // ---------------------------------------------------------------- the host's mirror

  datatype Attempt = Attempt(message: Message, sent: bool)

  function Messages(log: seq<Attempt>): seq<Message> {
    seq(|log|, i requires 0 <= i < |log| => log[i].message)
  }

  /** The set the host builds from the messages that reached it. */
  function Mirror(log: seq<Attempt>): set<PortEntry> {
    if log == [] then {} else
      var before, a := Mirror(log[..|log| - 1]), log[|log| - 1];
      if !a.sent then before else if a.message.start then before + {a.message.entry} else before - {a.message.entry}
  }

  /** How many attempts to say something about `e` have failed since the last that reached the host. */
  function Lost(log: seq<Attempt>, e: PortEntry): nat {
    if log == [] then 0 else
      var before, a := log[..|log| - 1], log[|log| - 1];
      if a.message.entry != e then Lost(before, e) else if a.sent then 0 else Lost(before, e) + 1
  }

  ghost predicate Alternates(turns: seq<bool>) {
    forall i :: 0 <= i < |turns| ==> (turns[i] <==> i % 2 == 0)
  }

  /** An entry is in the mirror after an odd number of attempts, not counting those lost since. */
  lemma {:induction false} MirrorFollows(log: seq<Attempt>, e: PortEntry)
    requires Alternates(Turns(Messages(log), e))
    ensures Lost(log, e) <= |Turns(Messages(log), e)|
    ensures e in Mirror(log) <==> (|Turns(Messages(log), e)| - Lost(log, e)) % 2 == 1
  {
    if log != [] {
      var before, a := log[..|log| - 1], log[|log| - 1];
      var turns, earlier := Turns(Messages(log), e), Turns(Messages(before), e);
      assert Messages(log) == Messages(before) + [a.message];
      TurnsAppend(Messages(before), [a.message], e);
      assert Turns([a.message], e) == if a.message.entry == e then [a.message.start] else [];
      assert forall i :: 0 <= i < |earlier| ==> earlier[i] == turns[i];
      MirrorFollows(before, e);
      if a.message.entry == e {
        assert turns[|turns| - 1] == a.message.start;
      } else {
        assert turns == earlier;
      }
    }
  }

  /** Starts and stops of every entry alternate, and it is tracked after the odd ones. */
  ghost predicate InStep(log: seq<Attempt>, entries: seq<PortEntry>) {
    forall e: PortEntry :: InStepFor(Turns(Messages(log), e), e in entries)
  }

  ghost predicate InStepFor(turns: seq<bool>, tracked: bool) {
    Alternates(turns) && (tracked <==> |turns| % 2 == 1)
  }

  /** An entry that comes or goes takes the next turn. */
  lemma NextTurn(turns: seq<bool>, was: bool, now: bool)
    requires InStepFor(turns, was)
    ensures InStepFor(turns + (if now == was then [] else [now]), now)
  {
  }

  /** One poll keeps that, whatever sends failed. */
  lemma PollInStep(log: seq<Attempt>, more: seq<Attempt>, current: seq<PortEntry>, before: seq<PortEntry>)
    requires InStep(log, before) && Strict(current) && Strict(before)
    requires Messages(more) == Diff(current, before)
    ensures InStep(log + more, current)
  {
    assert Messages(log + more) == Messages(log) + Messages(more);
    forall e: PortEntry ensures InStepFor(Turns(Messages(log + more), e), e in current) {
      TurnsAppend(Messages(log), Messages(more), e);
      DiffIsDifference(current, before, e);
      assert InStepFor(Turns(Messages(log), e), e in before);
      NextTurn(Turns(Messages(log), e), e in before, e in current);
    }
  }

  /** The mirror agrees with the tracker on an entry exactly when an even number of
      sends about it have failed since the last one that succeeded. */
  lemma MirrorIsTracked(log: seq<Attempt>, entries: seq<PortEntry>, e: PortEntry)
    requires InStep(log, entries)
    ensures (e in Mirror(log) <==> e in entries) <==> Lost(log, e) % 2 == 0
  {
    assert InStepFor(Turns(Messages(log), e), e in entries);
    MirrorFollows(log, e);
  }

  /** With no failed send the mirror is the tracker's set. */
  lemma MirrorIsWhole(log: seq<Attempt>, entries: seq<PortEntry>)
    requires InStep(log, entries)
    requires forall i :: 0 <= i < |log| ==> log[i].sent
    ensures Mirror(log) == Elements(entries)
  {
    forall e: PortEntry ensures e in Mirror(log) <==> e in entries {
      MirrorIsTracked(log, entries, e);
      AllSent(log, e);
    }
  }

  lemma {:induction false} AllSent(log: seq<Attempt>, e: PortEntry)
    requires forall i :: 0 <= i < |log| ==> log[i].sent
    ensures Lost(log, e) == 0
  {
    if log != [] {
      AllSent(log[..|log| - 1], e);
    }
  }

  /** One lost Start leaves the host without an entry that is tracked. */
  lemma LostStart(e: PortEntry)
    ensures var log := [Attempt(Message(true, e), false)];
            InStep(log, [e]) && e !in Mirror(log)
  {
    var log := [Attempt(Message(true, e), false)];
    assert log[..0] == [];
    forall x: PortEntry ensures InStepFor(Turns(Messages(log), x), x in [e]) {
      assert Messages(log) == [Message(true, e)] && Messages(log)[1..] == [];
    }
  }

  // ---------------------------------------------------------------- the tracker

  /** The connection to the host. */
  class GnsChannel {
    ghost var log: seq<Attempt>

    constructor ()
      ensures log == []
    {
      log := [];
    }

    /** port_tracker_send_relay, which may fail. */
    method SendRelay(start: bool, entry: PortEntry) returns (sent: bool)
      modifies this
      ensures log == old(log) + [Attempt(Message(start, entry), sent)]
    {
      sent := *;
      log := log + [Attempt(Message(start, entry), sent)];
    }
  }

  class PortTracker {
    var entries: array<PortEntry>
    var count: nat

    ghost predicate Valid(channel: GnsChannel)
      reads this, entries, channel
    {
      && count <= entries.Length
      && Strict(entries[..count])
      && InStep(channel.log, entries[..count])
    }

    /** port_tracker_init. */
    constructor (channel: GnsChannel)
      requires channel.log == []
      ensures Valid(channel) && count == 0 && fresh(entries)
    {
      var blank := EntryRecord(0, 0, seq(16, _ => 0));
      entries := new PortEntry[16](_ => blank);
      count := 0;
    }

    /** port_tracker_poll. `found` is what collecting the listening ports yields,
        none when it fails. The new snapshot replaces the old one even when sends fail. */
    method Poll(channel: GnsChannel, found: Option<seq<PortEntry>>) returns (result: int)
      requires Valid(channel)
      modifies this, channel
      ensures Valid(channel)
      ensures found.None? ==> result == -1 && entries == old(entries) && count == old(count) && channel.log == old(channel.log)
      ensures found.Some? ==>
                && result == 0
                && Elements(entries[..count]) == Elements(found.value)
                && |channel.log| >= |old(channel.log)| && channel.log[..|old(channel.log)|] == old(channel.log)
                && Messages(channel.log[|old(channel.log)|..]) == Diff(entries[..count], old(entries[..count]))
    {
      if found.None? {
        return -1;
      }
      var current := new PortEntry[|found.value|](i requires 0 <= i < |found.value| => found.value[i]);
      assert current[..] == found.value;
      assert current[..|found.value|] == current[..];
      var curCount := DedupSort(current, |found.value|);
      ghost var before, log := entries[..count], channel.log;
      Walk(channel, current, curCount);
      PollInStep(log, channel.log[|log|..], current[..curCount], before);
      assert log + channel.log[|log|..] == channel.log;
      entries := current;
      count := curCount;
      return 0;
    }

    /** The loop over both arrays. */
    method Walk(channel: GnsChannel, current: array<PortEntry>, curCount: nat)
      requires curCount <= current.Length && count <= entries.Length
      modifies channel
      ensures |channel.log| >= |old(channel.log)| && channel.log[..|old(channel.log)|] == old(channel.log)
      ensures Messages(channel.log[|old(channel.log)|..]) == Diff(current[..curCount], entries[..count])
    {
      ghost var cur, was, n := current[..curCount], entries[..count], |channel.log|;
      var i, j := 0, 0;
      while i < curCount || j < count
        invariant i <= curCount && j <= count
        invariant |channel.log| >= n && channel.log[..n] == old(channel.log)
        invariant Messages(channel.log[n..]) + Diff(cur[i..], was[j..]) == Diff(cur, was)
        decreases curCount - i + count - j
      {
        i, j := WalkStep(channel, current, curCount, i, j, n);
      }
    }

    /** The body of that loop. */
    method WalkStep(channel: GnsChannel, current: array<PortEntry>, curCount: nat, i: nat, j: nat, ghost n: nat)
      returns (i': nat, j': nat)
      requires i <= curCount <= current.Length && j <= count <= entries.Length && (i < curCount || j < count)
      requires n <= |channel.log|
      modifies channel
      ensures i <= i' <= curCount && j <= j' <= count && i + j < i' + j'
      ensures |channel.log| >= n && channel.log[..n] == old(channel.log[..n])
      ensures Messages(channel.log[n..]) + Diff(current[..curCount][i'..], entries[..count][j'..]) ==
              Messages(old(channel.log)[n..]) + Diff(current[..curCount][i..], entries[..count][j..])
    {
      hide Cmp, Diff, Messages;
      ghost var cur, was, sent := current[..curCount], entries[..count], channel.log[n..];
      DiffAt(cur, was, i, j);
      i', j' := i, j;
      var cmp: int;
      if i >= curCount {
        cmp := 1;
      } else if j >= count {
        cmp := -1;
      } else {
        cmp := Cmp(current[i], entries[j]);
      }
      if cmp < 0 {
        var ok := channel.SendRelay(true, current[i]);
        MessagesSnoc(sent, channel.log[n..], Attempt(Message(true, current[i]), ok), Diff(cur[i + 1..], was[j..]));
        i' := i + 1;
      } else if cmp > 0 {
        var ok := channel.SendRelay(false, entries[j]);
        MessagesSnoc(sent, channel.log[n..], Attempt(Message(false, entries[j]), ok), Diff(cur[i..], was[j + 1..]));
        j' := j + 1;
      } else {
        i', j' := i + 1, j + 1;
      }
    }
  }

  /** The walk unfolded at positions `i` and `j`. */
  lemma DiffAt(cur: seq<PortEntry>, was: seq<PortEntry>, i: nat, j: nat)
    requires i <= |cur| && j <= |was| && (i < |cur| || j < |was|)
    ensures var cmp := if i == |cur| then 1 else if j == |was| then -1 else Cmp(cur[i], was[j]);
            Diff(cur[i..], was[j..]) ==
            if cmp < 0 then [Message(true, cur[i])] + Diff(cur[i + 1..], was[j..])
            else if cmp > 0 then [Message(false, was[j])] + Diff(cur[i..], was[j + 1..])
            else Diff(cur[i + 1..], was[j + 1..])
  {
    if i < |cur| {
      assert cur[i..][0] == cur[i] && cur[i..][1..] == cur[i + 1..];
    }
    if j < |was| {
      assert was[j..][0] == was[j] && was[j..][1..] == was[j + 1..];
    }
  }

  lemma MessagesSnoc(a: seq<Attempt>, b: seq<Attempt>, x: Attempt, rest: seq<Message>)
    requires b == a + [x]
    ensures Messages(b) + rest == Messages(a) + ([x.message] + rest)
  {
    assert Messages(b) == Messages(a) + [x.message];
  }
}
