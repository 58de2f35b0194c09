/**
 The hourly limit of instances an account may enter: which entries are remembered, when one is
 forgotten, and what that means for every hour of every run.
 */
module InstanceLimit {
  import opened Wrappers

  const HOUR := 3600

  /** An instance and when it was last entered. */
  datatype Entry = Entry(instance: nat, time: int)

  predicate Ascending(entries: seq<Entry>) {
    forall i, j :: 0 <= i < j < |entries| ==> entries[i].instance < entries[j].instance
  }

  predicate Has(entries: seq<Entry>, instance: nat) {
    exists i :: 0 <= i < |entries| && entries[i].instance == instance
  }

  /** The place of the first entry that is over an hour old, from `i` on. */
  function FirstExpired(entries: seq<Entry>, now: int, i: nat): (k: nat)
    requires i <= |entries|
    ensures i <= k <= |entries|
    ensures k < |entries| ==> entries[k].time + HOUR < now
    ensures forall j :: i <= j < k ==> entries[j].time + HOUR >= now
    decreases |entries| - i
  {
    if i == |entries| || entries[i].time + HOUR < now then i else FirstExpired(entries, now, i + 1)
  }

  /** What the check answers, and the entries it leaves. */
  function Check(account: Option<seq<Entry>>, instance: nat, maxCount: nat, now: int): (bool, Option<seq<Entry>>) {
    if account.None? then (true, account)
    else
      var entries := account.value;
      if Has(entries, instance) || |entries| < maxCount then (true, account)
      else
        var k := FirstExpired(entries, now, 0);
        if k < |entries| then (true, Some(entries[..k] + entries[k + 1..])) else (false, account)
  }

  function Put(entries: seq<Entry>, entry: Entry): seq<Entry> {
    if entries == [] || entry.instance < entries[0].instance then [entry] + entries
    else if entry.instance == entries[0].instance then [entry] + entries[1..]
    else [entries[0]] + Put(entries[1..], entry)
  }

  function Add(account: Option<seq<Entry>>, entry: Entry): Option<seq<Entry>> {
    Some(if account.None? then [entry] else Put(account.value, entry))
  }

  // ---------- The manager ----------

  class AccountMgr {
    var instanceEnterTimes: map<nat, seq<Entry>>

    predicate Valid()
      reads this
    {
      forall a :: a in instanceEnterTimes ==> Ascending(instanceEnterTimes[a])
    }

    function Account(account: nat): Option<seq<Entry>>
      reads this
    {
      if account in instanceEnterTimes then Some(instanceEnterTimes[account]) else None
    }

    constructor ()
      ensures Valid() && instanceEnterTimes == map[]
    {
      instanceEnterTimes := map[];
    }

    method CheckInstanceCount(account: nat, instance: nat, maxCount: nat, now: int) returns (allowed: bool)
      requires Valid()
      modifies this
      ensures Valid()
      ensures (allowed, Account(account)) == Check(old(Account(account)), instance, maxCount, now)
      ensures forall a :: a != account ==> Account(a) == old(Account(a))
    {
      if account !in instanceEnterTimes {
        return true;
      }
      var enterTimes := instanceEnterTimes[account];
      var known := Find(enterTimes, instance);
      if known {
        return true;
      }
      if |enterTimes| < maxCount {
        return true;
      }
      var it2 := FindExpired(enterTimes, now);
      if it2 < |enterTimes| {
        instanceEnterTimes := instanceEnterTimes[account := enterTimes[..it2] + enterTimes[it2 + 1..]];
        return true;
      }
      return false;
    }

    method Find(enterTimes: seq<Entry>, instance: nat) returns (found: bool)
      ensures found <==> Has(enterTimes, instance)
    {
      for i := 0 to |enterTimes|
        invariant forall j :: 0 <= j < i ==> enterTimes[j].instance != instance
      {
        if enterTimes[i].instance == instance {
          return true;
        }
      }
      return false;
    }

    method FindExpired(enterTimes: seq<Entry>, now: int) returns (it2: nat)
      ensures it2 == FirstExpired(enterTimes, now, 0)
    {
      it2 := 0;
      while it2 < |enterTimes| && enterTimes[it2].time + HOUR >= now
        invariant it2 <= |enterTimes| && FirstExpired(enterTimes, now, it2) == FirstExpired(enterTimes, now, 0)
      {
        it2 := it2 + 1;
      }
    }

    method AddInstanceEnterTime(account: nat, instance: nat, enterTime: int)
      requires Valid()
      modifies this
      ensures Valid()
      ensures Account(account) == Add(old(Account(account)), Entry(instance, enterTime))
      ensures forall a :: a != account ==> Account(a) == old(Account(a))
    {
      if account !in instanceEnterTimes {
        instanceEnterTimes := instanceEnterTimes[account := [Entry(instance, enterTime)]];
        return;
      }
      PutKeeps(instanceEnterTimes[account], Entry(instance, enterTime));
      var times := Set(instanceEnterTimes[account], instance, enterTime);
      hide Put, Ascending;
      instanceEnterTimes := instanceEnterTimes[account := times];
    }

    method Set(enterTimes: seq<Entry>, instance: nat, enterTime: int) returns (times: seq<Entry>)
      ensures times == Put(enterTimes, Entry(instance, enterTime))
    {
      var entry, at := Entry(instance, enterTime), 0;
      while at < |enterTimes| && enterTimes[at].instance < instance
        invariant 0 <= at <= |enterTimes|
        invariant forall i :: 0 <= i < at ==> enterTimes[i].instance < instance
      {
        at := at + 1;
      }
      PutPasses(enterTimes, entry, at);
      if at < |enterTimes| && enterTimes[at].instance == instance {
        times := enterTimes[..at] + [entry] + enterTimes[at + 1..];
      } else {
        times := enterTimes[..at] + [entry] + enterTimes[at..];
      }
    }
  }

  lemma {:induction false} PutPasses(entries: seq<Entry>, entry: Entry, at: nat)
    requires at <= |entries| && forall i :: 0 <= i < at ==> entries[i].instance < entry.instance
    requires at < |entries| ==> entry.instance <= entries[at].instance
    ensures Put(entries, entry) == entries[..at] + [entry] +
      (if at < |entries| && entries[at].instance == entry.instance then entries[at + 1..] else entries[at..])
  {
    if at > 0 {
      PutPasses(entries[1..], entry, at - 1);
    }
  }

  lemma {:induction false} PutKeeps(entries: seq<Entry>, entry: Entry)
    requires Ascending(entries)
    ensures Ascending(Put(entries, entry))
    ensures forall e :: e in Put(entries, entry) <==> e == entry || (e in entries && e.instance != entry.instance)
  {
    if entries != [] && entries[0].instance < entry.instance {
      PutKeeps(entries[1..], entry);
    }
    assert entries != [] ==> forall e :: e in entries <==> e == entries[0] || e in entries[1..];
  }

  lemma {:induction false} PutLength(entries: seq<Entry>, entry: Entry)
    requires Ascending(entries)
    ensures |Put(entries, entry)| == |entries| + if Has(entries, entry.instance) then 0 else 1
  {
    if entries != [] && entries[0].instance < entry.instance {
      PutLength(entries[1..], entry);
      assert forall i :: 1 <= i < |entries| ==> entries[i] == entries[1..][i - 1];
    } else if entries != [] && entries[0].instance == entry.instance {
      assert Has(entries, entry.instance);
    }
  }

  // ---------- Runs ----------

  /** A check alone, or a check and, when allowed, an entry some time later. */
  datatype Step = Ask(instance: nat, now: int) | Enter(instance: nat, now: int, at: int)

  /** An account: what is remembered, every entry it made, and the time. */
  datatype Past = Past(account: Option<seq<Entry>>, made: seq<Entry>, clock: int)

  predicate OnTime(p: Past, s: Step) {
    p.clock <= s.now && (s.Enter? ==> s.now <= s.at)
  }

  function Take(p: Past, s: Step, maxCount: nat): Past {
    var (allowed, account) := Check(p.account, s.instance, maxCount, s.now);
    match s
    case Ask(_, now) => Past(account, p.made, now)
    case Enter(instance, now, at) =>
      if allowed then Past(Add(account, Entry(instance, at)), p.made + [Entry(instance, at)], at)
      else Past(account, p.made, now)
  }

  predicate InTime(start: int, steps: seq<Step>, maxCount: nat) {
    steps == [] || (InTime(start, steps[..|steps| - 1], maxCount) && OnTime(After(start, steps[..|steps| - 1], maxCount), steps[|steps| - 1]))
  }

  function After(start: int, steps: seq<Step>, maxCount: nat): Past {
    if steps == [] then Past(None, [], start)
    else Take(After(start, steps[..|steps| - 1], maxCount), steps[|steps| - 1], maxCount)
  }

  /** The instances entered in the hour from second `from`. */
  function EnteredIn(made: seq<Entry>, from: int): set<nat> {
    set i | 0 <= i < |made| && from <= made[i].time <= from + HOUR :: made[i].instance
  }

  /** What was made in the last hour is remembered. */
  predicate Remembered(entries: seq<Entry>, made: seq<Entry>, clock: int) {
    forall h :: h in made && h.time + HOUR >= clock ==> Has(entries, h.instance)
  }

  /** No remembered time is older than the last entry of that instance. */
  predicate Latest(entries: seq<Entry>, made: seq<Entry>) {
    forall h, e :: h in made && e in entries && e.instance == h.instance ==> h.time <= e.time
  }

  predicate Inv(p: Past, maxCount: nat) {
    var entries := if p.account.Some? then p.account.value else [];
    && Ascending(entries) && |entries| <= maxCount
    && (forall h :: h in p.made ==> h.time <= p.clock)
    && Remembered(entries, p.made, p.clock)
    && Latest(entries, p.made)
  }

  lemma ForgetKeeps(entries: seq<Entry>, k: nat, made: seq<Entry>, clock: int, now: int)
    requires k < |entries| && entries[k].time + HOUR < now && clock <= now
    requires Ascending(entries) && Remembered(entries, made, clock) && Latest(entries, made)
    ensures var left := entries[..k] + entries[k + 1..];
      Ascending(left) && Remembered(left, made, now) && Latest(left, made)
  {
    var left := entries[..k] + entries[k + 1..];
    assert forall e :: e in left ==> e in entries;
    forall h | h in made && h.time + HOUR >= now ensures Has(left, h.instance) {
      var i :| 0 <= i < |entries| && entries[i].instance == h.instance;
      assert entries[i] in entries;
      assert i != k;
      assert left[if i < k then i else i - 1] == entries[i];
    }
  }

  /** A check forgets only what is over an hour old, and leaves room for what it allows. */
  lemma CheckKeeps(p: Past, s: Step, maxCount: nat)
    requires Inv(p, maxCount) && p.clock <= s.now
    ensures var (allowed, account) := Check(p.account, s.instance, maxCount, s.now);
      && Inv(Past(account, p.made, s.now), maxCount)
      && (allowed && account.Some? ==> Has(account.value, s.instance) || |account.value| < maxCount)
  {
    hide Has, Ascending, Latest;
    if p.account.Some? {
      var k := FirstExpired(p.account.value, s.now, 0);
      if k < |p.account.value| {
        ForgetKeeps(p.account.value, k, p.made, p.clock, s.now);
      }
    }
  }

  lemma PutRemembers(entries: seq<Entry>, entry: Entry, made: seq<Entry>, clock: int)
    requires Ascending(entries) && Remembered(entries, made, clock) && Latest(entries, made)
    requires clock <= entry.time && forall h :: h in made ==> h.time <= clock
    ensures Remembered(Put(entries, entry), made + [entry], entry.time) && Latest(Put(entries, entry), made + [entry])
  {
    var put := Put(entries, entry);
    PutKeeps(entries, entry);
    hide Put, Ascending;
    forall h | h in made + [entry] && h.time + HOUR >= entry.time ensures Has(put, h.instance) {
      if h.instance == entry.instance {
        var i :| 0 <= i < |put| && put[i] == entry;
      } else {
        var i :| 0 <= i < |entries| && entries[i].instance == h.instance;
        assert entries[i] in put;
      }
    }
  }

  lemma AddKeeps(p: Past, entry: Entry, maxCount: nat)
    requires Inv(p, maxCount) && p.clock <= entry.time && maxCount >= 1
    requires p.account.Some? ==> Has(p.account.value, entry.instance) || |p.account.value| < maxCount
    ensures Inv(Past(Add(p.account, entry), p.made + [entry], entry.time), maxCount)
  {
    var entries := if p.account.Some? then p.account.value else [];
    assert [entry] + [] == [entry];
    assert Add(p.account, entry) == Some(Put(entries, entry));
    PutKeeps(entries, entry);
    PutLength(entries, entry);
    hide Put, Remembered, Latest, Has, Ascending;
    PutRemembers(entries, entry, p.made, p.clock);
  }

  lemma {:induction false} RunKeeps(start: int, steps: seq<Step>, maxCount: nat)
    requires maxCount >= 1 && InTime(start, steps, maxCount)
    ensures Inv(After(start, steps, maxCount), maxCount)
  {
    hide Check, Add;
    if steps != [] {
      var p, s := After(start, steps[..|steps| - 1], maxCount), steps[|steps| - 1];
      RunKeeps(start, steps[..|steps| - 1], maxCount);
      hide After, Inv;
      CheckKeeps(p, s, maxCount);
      var (allowed, account) := Check(p.account, s.instance, maxCount, s.now);
      if s.Enter? && allowed {
        AddKeeps(Past(account, p.made, s.now), Entry(s.instance, s.at), maxCount);
      }
      assert After(start, steps, maxCount) == Take(p, s, maxCount) by { AfterLast(start, steps, maxCount); }
    }
  }

  lemma AfterLast(start: int, steps: seq<Step>, maxCount: nat)
    requires steps != []
    ensures After(start, steps, maxCount) == Take(After(start, steps[..|steps| - 1], maxCount), steps[|steps| - 1], maxCount)
  {
    hide Take;
  }

  function Instances(entries: seq<Entry>): set<nat> {
    set e | e in entries :: e.instance
  }

  lemma {:induction false} FewInstances(entries: seq<Entry>)
    ensures |Instances(entries)| <= |entries|
  {
    if entries != [] {
      var rest, last := entries[..|entries| - 1], entries[|entries| - 1];
      FewInstances(rest);
      assert Instances(entries) == Instances(rest) + {last.instance};
    }
  }

  lemma Included(a: set<nat>, b: set<nat>)
    requires a <= b
    ensures |a| <= |b|
  {
    assert b == a + (b - a);
  }

  lemma HourAtEnd(p: Past, maxCount: nat, from: int)
    requires Inv(p, maxCount) && p.clock <= from + HOUR
    ensures |EnteredIn(p.made, from)| <= maxCount
  {
    hide Ascending, Latest;
    var entries := if p.account.Some? then p.account.value else [];
    forall i | 0 <= i < |p.made| && from <= p.made[i].time <= from + HOUR ensures p.made[i].instance in Instances(entries) {
      assert p.made[i] in p.made;
      var j :| 0 <= j < |entries| && entries[j].instance == p.made[i].instance;
      assert entries[j] in entries;
    }
    Included(EnteredIn(p.made, from), Instances(entries));
    FewInstances(entries);
  }

  /** In every run and every hour of it, no more instances are entered than the limit. */
  lemma {:induction false} HourlyLimit(start: int, steps: seq<Step>, maxCount: nat, from: int)
    requires maxCount >= 1 && InTime(start, steps, maxCount)
    ensures |EnteredIn(After(start, steps, maxCount).made, from)| <= maxCount
  {
    hide Check, Add, Inv, OnTime;
    var p := After(start, steps, maxCount);
    if p.clock <= from + HOUR {
      RunKeeps(start, steps, maxCount);
      HourAtEnd(p, maxCount, from);
    } else if steps != [] {
      var before := After(start, steps[..|steps| - 1], maxCount);
      HourlyLimit(start, steps[..|steps| - 1], maxCount, from);
      AfterLast(start, steps, maxCount);
      LaterEntry(before, steps[|steps| - 1], maxCount, from);
    }
  }

  /** A step that takes the time past an hour enters nothing in it. */
  lemma LaterEntry(p: Past, s: Step, maxCount: nat, from: int)
    requires Take(p, s, maxCount).clock > from + HOUR
    ensures EnteredIn(Take(p, s, maxCount).made, from) == EnteredIn(p.made, from)
  {
    hide Check, Add;
    var made := Take(p, s, maxCount).made;
    assert forall i :: 0 <= i < |p.made| ==> made[i] == p.made[i];
  }

  /** What is remembered was made. */
  predicate Made(p: Past) {
    p.account.Some? ==> forall e :: e in p.account.value ==> e in p.made
  }

  lemma TakeMade(p: Past, s: Step, maxCount: nat)
    requires Inv(p, maxCount) && Made(p)
    ensures Made(Take(p, s, maxCount))
  {
    hide Remembered, Latest, Has, Put, Ascending;
    var account := Check(p.account, s.instance, maxCount, s.now).1;
    assert account.Some? ==> forall e :: e in account.value ==> e in p.made;
    if s.Enter? && account.Some? {
      CheckAscends(p, s.instance, maxCount, s.now);
      PutKeeps(account.value, Entry(s.instance, s.at));
    }
  }

  lemma CheckAscends(p: Past, instance: nat, maxCount: nat, now: int)
    requires Inv(p, maxCount)
    ensures var account := Check(p.account, instance, maxCount, now).1;
      account.Some? ==> Ascending(account.value)
  {
    hide Remembered, Latest, Has;
  }

  lemma {:induction false} RunMade(start: int, steps: seq<Step>, maxCount: nat)
    requires maxCount >= 1 && InTime(start, steps, maxCount)
    ensures Made(After(start, steps, maxCount))
  {
    hide Take, Inv;
    if steps != [] {
      RunMade(start, steps[..|steps| - 1], maxCount);
      RunKeeps(start, steps[..|steps| - 1], maxCount);
      TakeMade(After(start, steps[..|steps| - 1], maxCount), steps[|steps| - 1], maxCount);
    }
  }

  lemma {:induction false} ManyInstances(entries: seq<Entry>)
    requires Ascending(entries)
    ensures |Instances(entries)| == |entries|
  {
    if entries != [] {
      var rest, last := entries[..|entries| - 1], entries[|entries| - 1];
      ManyInstances(rest);
      assert Instances(entries) == Instances(rest) + {last.instance};
    }
  }

  lemma SameSet(a: set<nat>, b: set<nat>)
    requires a <= b && |a| >= |b|
    ensures a == b
  {
    assert b == a + (b - a);
  }

  /**
   In every run a check refuses exactly when in the hour up to it as many instances as the limit
   were entered, and the one asked for is none of them.
   */
  lemma RefusedExactly(start: int, steps: seq<Step>, maxCount: nat, instance: nat, now: int)
    requires maxCount >= 1 && InTime(start, steps, maxCount) && After(start, steps, maxCount).clock <= now
    ensures var p := After(start, steps, maxCount);
      var hour := EnteredIn(p.made, now - 3600);
      !Check(p.account, instance, maxCount, now).0 <==> |hour| >= maxCount && instance !in hour
  {
    hide After, InTime, Inv, Made, Check;
    RunKeeps(start, steps, maxCount);
    RunMade(start, steps, maxCount);
    var p := After(start, steps, maxCount);
    AllInHour(p, maxCount, now);
    CheckParts(p, instance, maxCount, now);
    HourAtEnd(p, maxCount, now - 3600);
    var entries := if p.account.Some? then p.account.value else [];
    var hour := EnteredIn(p.made, now - 3600);
    ManyInstancesOf(p, maxCount);
    if |hour| >= maxCount {
      SameSet(hour, Instances(entries));
    }
  }

  lemma ManyInstancesOf(p: Past, maxCount: nat)
    requires Inv(p, maxCount)
    ensures var entries := if p.account.Some? then p.account.value else [];
      |Instances(entries)| == |entries| <= maxCount
  {
    hide Remembered, Latest;
    ManyInstances(if p.account.Some? then p.account.value else []);
  }

  /** The instances remembered are those of the hour just when no remembered entry has expired; those of the hour are all remembered. */
  lemma AllInHour(p: Past, maxCount: nat, now: int)
    requires Inv(p, maxCount) && Made(p) && p.clock <= now
    ensures var entries := if p.account.Some? then p.account.value else [];
      var hour := EnteredIn(p.made, now - 3600);
      && hour <= Instances(entries)
      && (hour == Instances(entries) <==> forall e :: e in entries ==> e.time + 3600 >= now)
  {
    hide Ascending;
    var entries := if p.account.Some? then p.account.value else [];
    var hour := EnteredIn(p.made, now - 3600);
    forall h | h in p.made && now - 3600 <= h.time ensures h.instance in Instances(entries) {
      var j :| 0 <= j < |entries| && entries[j].instance == h.instance;
      assert entries[j] in entries;
    }
    forall e | e in entries ensures e.instance in hour <==> e.time + 3600 >= now {
      InHour(p, e, now);
      if e.instance in hour {
        var i :| 0 <= i < |p.made| && now - 3600 <= p.made[i].time <= now && p.made[i].instance == e.instance;
        assert p.made[i] in p.made;
      }
    }
  }

  lemma InHour(p: Past, e: Entry, now: int)
    requires e in p.made && e.time <= now
    ensures e.time + 3600 >= now ==> e.instance in EnteredIn(p.made, now - 3600)
  {
  }

  /** A check refuses an unknown instance when the memory is full and nothing in it has expired. */
  lemma CheckParts(p: Past, instance: nat, maxCount: nat, now: int)
    requires maxCount >= 1
    ensures var entries := if p.account.Some? then p.account.value else [];
      !Check(p.account, instance, maxCount, now).0 <==>
        instance !in Instances(entries) && |entries| >= maxCount && forall e :: e in entries ==> e.time + 3600 >= now
  {
    if p.account.Some? {
      var entries := p.account.value;
      forall e | e in entries && e.instance == instance ensures Has(entries, instance) {
        var i :| 0 <= i < |entries| && entries[i] == e;
      }
      var k := FirstExpired(entries, now, 0);
      assert k < |entries| ==> entries[k] in entries;
    }
  }

  /** With a limit of zero an account still enters one instance. */
  lemma ZeroLimitLetsOneIn()
    ensures var steps := [Enter(1, 0, 0)];
      InTime(0, steps, 0) && |EnteredIn(After(0, steps, 0).made, 0)| == 1
  {
    var steps := [Enter(1, 0, 0)];
    assert steps[..0] == [];
    assert Take(Past(None, [], 0), steps[0], 0).made == [Entry(1, 0)];
    assert After(0, steps, 0).made == [Entry(1, 0)] by { AfterLast(0, steps, 0); }
    var made := [Entry(1, 0)];
    assert made[0].instance in EnteredIn(made, 0);
    assert EnteredIn(made, 0) == {1};
  }
}
