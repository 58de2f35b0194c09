/**
 A group of creatures that fight, evade and respawn together. Calling a creature's script may
 call back into the group, and may change its member list or disband it, so every method may run
 inside another; two guards cut the cascades off.
 */
module CreatureGroups {
  import opened Wrappers
  import opened Bytes
  import opened Sequences
  import opened GroupWalks

  const OPTION_FORMATION_MOVE: bv32 := 0x001
  const OPTION_AGGRO_TOGETHER: bv32 := 0x002
  const OPTION_EVADE_TOGETHER: bv32 := 0x004
  const OPTION_RESPAWN_TOGETHER: bv32 := 0x008
  const OPTION_RESPAWN_ALL_ON_MASTER_EVADE: bv32 := 0x010
  const OPTION_RESPAWN_ALL_ON_ANY_EVADE: bv32 := 0x020
  const OPTION_INFORM_LEADER_ON_MEMBER_DIED: bv32 := 0x040
  const OPTION_INFORM_MEMBERS_ON_ANY_DIED: bv32 := 0x080

  /** Whether a creature turned to for help attacks. */
  predicate Helps(seen: Option<Creature>) {
    seen.Some? && seen.value.inWorld && seen.value.alive && !seen.value.hasVictim && seen.value.hasAI
  }

  predicate Returns(seen: Option<Creature>) {
    seen.Some? && seen.value.inWorld && seen.value.waiting && seen.value.canBeSpawned
  }

  /** Whether a creature is told of a death. */
  predicate Hears(seen: Option<Creature>) {
    seen.Some? && seen.value.inWorld && seen.value.alive && seen.value.hasAI
  }

  /** Whether a creature evades with the others. */
  predicate Evades(seen: Option<Creature>) {
    seen.Some? && seen.value.inWorld && seen.value.inCombat && seen.value.hasAI
  }

  /** The visited creatures that pass a test. */
  function Passed(visits: seq<Visit>, test: Option<Creature> -> bool): seq<word64> {
    if visits == [] then []
    else
      var rest := Passed(visits[..|visits| - 1], test);
      var last := visits[|visits| - 1];
      if test(last.seen) then rest + [last.guid] else rest
  }

  lemma PassedNext(visits: seq<Visit>, v: Visit, test: Option<Creature> -> bool)
    ensures Passed(visits + [v], test) == Passed(visits, test) + if test(v.seen) then [v.guid] else []
  {
    assert (visits + [v])[..|visits|] == visits;
  }

  /**
   A cascade: a whole walk over the members but one, then a visit to the original leader, unless
   that is where it started.
   */
  ghost predicate Cascade(visits: seq<Visit>, changes: seq<Change>, from: nat, except: word64, leader: word64) {
    if except == leader then FullWalk(changes, except, from, |changes|, visits)
    else
      && visits != []
      && visits[|visits| - 1].guid == leader && !visits[|visits| - 1].walking
      && visits[|visits| - 1].since <= visits[|visits| - 1].until <= |changes|
      && FullWalk(changes, except, from, visits[|visits| - 1].since, visits[..|visits| - 1])
  }

  /** The list with one guid's entry set. */
  ghost predicate Sets(members: seq<Member>, member: Member, after: seq<Member>) {
    && Ascending(after) && member in after
    && (forall m: Member :: m.guid != member.guid ==> (m in after <==> m in members))
    && (forall g: word64 :: Contains(after, g) <==> Contains(members, g) || g == member.guid)
  }

  lemma ReplacedAt(members: seq<Member>, at: nat, member: Member)
    requires Ascending(members) && at < |members| && members[at].guid == member.guid
    ensures Sets(members, member, members[at := member])
  {
    var after := members[at := member];
    assert after[at] == member;
    assert forall i :: 0 <= i < |members| ==> after[i].guid == members[i].guid;
    forall m: Member | m.guid != member.guid ensures m in after <==> m in members {
      if m in members {
        var i :| 0 <= i < |members| && members[i] == m;
        assert after[i] == m;
      }
    }
  }

  lemma InsertedAt(members: seq<Member>, at: nat, member: Member)
    requires Ascending(members) && at <= |members|
    requires forall i :: 0 <= i < at ==> members[i].guid < member.guid
    requires at < |members| ==> members[at].guid > member.guid
    ensures Sets(members, member, members[..at] + [member] + members[at..])
  {
    hide Ascending, Contains;
    var front, back := members[..at], members[at..];
    var after := front + [member] + back;
    assert after[at] == member && members == front + back;
    InsertedAscending(members, at, member);
    InsertedIn(front, back, member);
    forall g: word64 ensures Contains(after, g) <==> Contains(members, g) || g == member.guid {
      InsertedContains(front, back, member, g);
    }
  }

  lemma InsertedAscending(members: seq<Member>, at: nat, member: Member)
    requires Ascending(members) && at <= |members|
    requires forall i :: 0 <= i < at ==> members[i].guid < member.guid
    requires at < |members| ==> members[at].guid > member.guid
    ensures Ascending(members[..at] + [member] + members[at..])
  {
    var after := members[..at] + [member] + members[at..];
    assert forall i :: 0 <= i < |after| ==> after[i] == if i < at then members[i] else if i == at then member else members[i - 1];
  }

  lemma InsertedIn(front: seq<Member>, back: seq<Member>, member: Member)
    ensures forall m: Member :: m in front + [member] + back <==> m in front + back || m == member
  {
  }

  lemma InsertedContains(front: seq<Member>, back: seq<Member>, member: Member, g: word64)
    ensures Contains(front + [member] + back, g) <==> Contains(front + back, g) || g == member.guid
  {
    ContainsBoth(front + [member], back, g);
    ContainsBoth(front, [member], g);
    ContainsBoth(front, back, g);
    assert [member][0].guid == member.guid;
  }

  lemma ContainsBoth(a: seq<Member>, b: seq<Member>, g: word64)
    ensures Contains(a + b, g) <==> Contains(a, g) || Contains(b, g)
  {
    if i :| 0 <= i < |a| && a[i].guid == g {
      assert (a + b)[i].guid == g;
    }
    if i :| 0 <= i < |b| && b[i].guid == g {
      assert (a + b)[|a| + i].guid == g;
    }
    if i :| 0 <= i < |a + b| && (a + b)[i].guid == g {
      assert if i < |a| then a[i].guid == g else b[i - |a|].guid == g;
    }
  }

  lemma ContainsIs(members: seq<Member>, g: word64)
    ensures Contains(members, g) <==> exists m :: m in members && m.guid == g
  {
    if m :| m in members && m.guid == g {
      var i :| 0 <= i < |members| && members[i] == m;
    }
  }

  lemma {:induction false} PassedAppends(a: seq<Visit>, b: seq<Visit>, test: Option<Creature> -> bool)
    ensures Passed(a + b, test) == Passed(a, test) + Passed(b, test)
  {
    if b == [] {
      assert a + b == a;
    } else {
      PassedAppends(a, b[..|b| - 1], test);
      assert (a + b)[..|a + b| - 1] == a + b[..|b| - 1];
    }
  }

  lemma {:induction false} PassedAre(visits: seq<Visit>, test: Option<Creature> -> bool)
    ensures forall g :: g in Passed(visits, test) <==> exists i :: 0 <= i < |visits| && visits[i].guid == g && test(visits[i].seen)
    ensures Distinct(Guids(visits)) ==> Distinct(Passed(visits, test))
  {
    if visits != [] {
      var rest, last := visits[..|visits| - 1], visits[|visits| - 1];
      PassedAre(rest, test);
      assert Guids(rest) == Guids(visits)[..|rest|];
      if Distinct(Guids(visits)) {
        assert forall i :: 0 <= i < |rest| ==> rest[i].guid == Guids(visits)[i] != Guids(visits)[|rest|] == last.guid;
        assert last.guid !in Passed(rest, test);
        assert Distinct(Guids(rest));
      }
    }
  }

  /** The guid was in the list as the cascade's walk came to its place. */
  ghost predicate Meets(visits: seq<Visit>, changes: seq<Change>, except: word64, leader: word64, g: word64) {
    if except == leader || visits == [] then ListedAt(changes, Comes(visits, |changes|, g), g)
    else ListedAt(changes, Comes(visits[..|visits| - 1], visits[|visits| - 1].since, g), g)
  }

  /**
   A cascade visits the original leader and whoever is in the list as the walk comes to its place,
   and nobody twice: but for the original leader, visited twice just when it is in the list then.
   */
  lemma CascadeVisits(visits: seq<Visit>, changes: seq<Change>, from: nat, except: word64, leader: word64, g: word64)
    requires Cascade(visits, changes, from, except, leader)
    ensures g in Guids(visits) <==> g != except && (g == leader || Meets(visits, changes, except, leader, g))
    ensures Distinct(Guids(visits)) <==> except == leader || !Meets(visits, changes, except, leader, leader)
  {
    hide FullWalk, ListedAt, Comes;
    var walk := if except == leader then visits else visits[..|visits| - 1];
    var end := if except == leader then |changes| else visits[|visits| - 1].since;
    FullWalkFacts(changes, except, from, end, walk, g);
    if except != leader {
      FullWalkFacts(changes, except, from, end, walk, leader);
      assert Guids(visits) == Guids(walk) + [leader];
      if leader !in Guids(walk) {
        assert Distinct(Guids(walk) + [leader]);
      } else {
        var i :| 0 <= i < |walk| && Guids(walk)[i] == leader;
        assert Guids(visits)[i] == Guids(visits)[|walk|];
      }
    }
  }

  /** While nothing changes the list, the original leader is visited twice just when it is a member. */
  lemma QuietCascade(members: seq<Member>, visits: seq<Visit>, changes: seq<Change>, except: word64, leader: word64)
    requires Listed(members, changes) && Cascade(visits, changes, |changes|, except, leader)
    ensures Guids(visits) == Others(members, except) + if except == leader then [] else [leader]
    ensures Distinct(Guids(visits)) <==> except == leader || !Contains(members, leader)
  {
    hide Others, FullWalk, Comes, Listed, Distinct, Contains;
    var walk := QuietWalkOf(visits, changes, except, leader);
    QuietWalk(members, changes, except, walk);
    OthersOf(members, changes, except, leader);
    FullWalkFacts(changes, except, |changes|, |changes|, walk, leader);
    if except == leader {
      assert Guids(visits) + [] == Guids(visits);
    } else {
      assert Guids(visits) == Guids(walk) + [leader];
      LastRepeats(Guids(walk), leader);
    }
  }

  lemma QuietWalkOf(visits: seq<Visit>, changes: seq<Change>, except: word64, leader: word64) returns (walk: seq<Visit>)
    requires Cascade(visits, changes, |changes|, except, leader)
    ensures FullWalk(changes, except, |changes|, |changes|, walk)
    ensures if except == leader then walk == visits else visits != [] && visits == walk + [visits[|visits| - 1]] && visits[|visits| - 1].guid == leader
  {
    hide Walks, Clear;
    walk := if except == leader then visits else visits[..|visits| - 1];
  }

  lemma OthersOf(members: seq<Member>, changes: seq<Change>, except: word64, g: word64)
    requires Listed(members, changes)
    ensures g in Others(members, except) <==> Contains(members, g) && g != except
  {
    hide Others, NodeOf;
    OthersAre(members, except);
  }

  lemma FullWalkFacts(changes: seq<Change>, except: word64, from: nat, end: nat, walk: seq<Visit>, g: word64)
    requires FullWalk(changes, except, from, end, walk)
    ensures Distinct(Guids(walk)) && except !in Guids(walk)
    ensures g != except ==> (g in Guids(walk) <==> ListedAt(changes, Comes(walk, end, g), g))
  {
    hide NodeOf, Comes, ListedAt;
    WalkAscends(changes, except, from, walk);
    if g != except {
      VisitedExactly(changes, except, from, end, walk, g);
    }
  }

  /**
   One cascade makes each creature act at most once: but for the original leader, which acts twice
   just when the walk meets it in the list and it passes the test both times it is turned to.
   */
  lemma CascadeActsOnce(visits: seq<Visit>, changes: seq<Change>, from: nat, except: word64, leader: word64, test: Option<Creature> -> bool)
    requires Cascade(visits, changes, from, except, leader)
    ensures except == leader || !Meets(visits, changes, except, leader, leader) ==> Distinct(Passed(visits, test))
    ensures except != leader ==>
      (!Distinct(Passed(visits, test)) <==>
        test(visits[|visits| - 1].seen) && exists i :: 0 <= i < |visits| - 1 && visits[i].guid == leader && test(visits[i].seen))
  {
    hide FullWalk, Meets, Passed;
    CascadeVisits(visits, changes, from, except, leader, leader);
    PassedAre(visits, test);
    if except != leader {
      var walk, last := visits[..|visits| - 1], visits[|visits| - 1];
      FullWalkFacts(changes, except, from, last.since, walk, leader);
      PassedAre(walk, test);
      PassedNext(walk, last, test);
      assert visits == walk + [last];
      LastRepeats(Passed(walk, test), leader);
    }
  }

  lemma LastRepeats(acts: seq<word64>, g: word64)
    requires Distinct(acts)
    ensures Distinct(acts + [g]) <==> g !in acts
    ensures Distinct(acts + [])
  {
    var more := acts + [g];
    if i :| 0 <= i < |acts| && acts[i] == g {
      assert more[i] == more[|acts|];
    }
    assert acts + [] == acts;
  }

  lemma FreedSince(changes: seq<Change>, since: nat)
    requires since <= |changes| && !DisbandedIn(changes[..since], 0, since)
    ensures DisbandedIn(changes, 0, |changes|) <==> DisbandedIn(changes, since, |changes|)
  {
    assert forall j :: 0 <= j < since ==> changes[j] == changes[..since][j];
  }

  /** What it takes to say when a visit ended, once its callbacks have returned. */
  lemma VisitEnds(visits: seq<Visit>, v: Visit, changes: seq<Change>, test: Option<Creature> -> bool)
    requires v.since == v.until <= |changes| && !v.walking && !DisbandedIn(changes[..v.since], 0, v.since)
    requires Dated(visits + [v], |changes|)
    ensures var ended := visits + [v.(until := |changes|)];
      && (AnyStrays(ended, changes) <==> AnyStrays(visits + [v], changes) || DisbandedIn(changes, 0, |changes|))
      && Dated(ended, |changes|) && Passed(ended, test) == Passed(visits + [v], test)
  {
    hide Passed;
    assert forall i :: 0 <= i < |visits| ==> (visits + [v])[i] == visits[i];
    FreedSince(changes, v.since);
    StraysNext(visits, v, changes);
    StraysNext(visits, v.(until := |changes|), changes);
    PassedNext(visits, v, test);
    PassedNext(visits, v.(until := |changes|), test);
  }

  /** What it takes to note a visit before its callbacks run. */
  lemma VisitBegins(visits: seq<Visit>, v: Visit, changes: seq<Change>, test: Option<Creature> -> bool)
    requires v.since == v.until == |changes| && !v.walking && Dated(visits, |changes|)
    ensures AnyStrays(visits + [v], changes) <==> AnyStrays(visits, changes)
    ensures Dated(visits + [v], |changes|) && Passed(visits + [v], test) == Passed(visits, test) + if test(v.seen) then [v.guid] else []
  {
    hide Passed;
    StraysNext(visits, v, changes);
    PassedNext(visits, v, test);
  }

  /** What it takes to say that the iterator was at the member visited. */
  lemma WalkLogged(log: seq<Visit>, v: Visit, changes: seq<Change>, test: Option<Creature> -> bool)
    requires v.walking && Dated(log + [v.(walking := false)], |changes|) && !AnyStrays(log + [v.(walking := false)], changes)
    ensures AnyStrays(log + [v], changes) <==> Strays(v, changes)
    ensures Dated(log + [v], |changes|) && Passed(log + [v], test) == Passed(log + [v.(walking := false)], test)
  {
    hide Passed;
    StraysNext(log, v, changes);
    StraysNext(log, v.(walking := false), changes);
    PassedNext(log, v, test);
    PassedNext(log, v.(walking := false), test);
    assert (log + [v.(walking := false)])[|log|] == v.(walking := false);
    assert forall i :: 0 <= i < |log| ==> (log + [v])[i] == (log + [v.(walking := false)])[i];
  }

  /** The same for a visit noted only when its callbacks have returned. */
  lemma NoticeEnds(visits: seq<Visit>, v: Visit, changes: seq<Change>)
    requires v.since <= v.until == |changes| && !v.walking && !DisbandedIn(changes[..v.since], 0, v.since) && Dated(visits, |changes|)
    ensures AnyStrays(visits + [v], changes) <==> AnyStrays(visits, changes) || DisbandedIn(changes, 0, |changes|)
    ensures Dated(visits + [v], |changes|)
  {
    FreedSince(changes, v.since);
    StraysNext(visits, v, changes);
  }

  // ---------- What the methods say of a cascade ----------

  /** A whole walk, then a visit to the original leader, make a cascade. */
  lemma CascadeMade(before: seq<Change>, changes: seq<Change>, from: nat, except: word64, leader: word64, walk: seq<Visit>, v: Visit)
    requires FullWalk(before, except, from, |before|, walk) && before <= changes && except != leader
    requires v.guid == leader && !v.walking && v.since == |before| && v.until == |changes|
    ensures Cascade(walk + [v], changes, from, except, leader)
  {
    hide NodeOf, Walks;
    WalksOn(before, changes, except, from, walk);
    assert (walk + [v])[..|walk|] == walk && changes[..|before|] == before[..|before|];
  }

  lemma PassedSince(log: seq<Visit>, now: seq<Visit>, test: Option<Creature> -> bool)
    requires log <= now
    ensures Passed(now, test) == Passed(log, test) + Passed(now[|log|..], test)
  {
    hide Passed;
    assert now == log + now[|log|..];
    PassedAppends(log, now[|log|..], test);
  }

  lemma NobodyPasses(test: Option<Creature> -> bool)
    ensures Passed([], test) == [] && Distinct<word64>([])
  {
  }

  /** What a cascade makes of those it visits. */
  lemma CascadeActs(log: seq<Visit>, now: seq<Visit>, changes: seq<Change>, from: nat, except: word64, leader: word64, test: Option<Creature> -> bool)
    requires log <= now && Cascade(now[|log|..], changes, from, except, leader)
    ensures Passed(log, test) <= Passed(now, test)
    ensures except == leader || !Meets(now[|log|..], changes, except, leader, leader) ==>
      Distinct(Passed(now, test)[|Passed(log, test)|..])
  {
    hide Passed, Cascade, Meets;
    PassedSince(log, now, test);
    CascadeActsOnce(now[|log|..], changes, from, except, leader, test);
  }

  // ---------- Changes to the list ----------

  /** A change to the list makes no earlier visit stray. */
  lemma LogsSame(assists: seq<Visit>, respawns: seq<Visit>, notices: seq<Visit>, changes: seq<Change>, c: Change)
    requires Dated(assists, |changes|) && Dated(respawns, |changes|) && Dated(notices, |changes|)
    ensures var more := changes + [c];
      && (AnyStrays(assists, more) <==> AnyStrays(assists, changes)) && Dated(assists, |more|)
      && (AnyStrays(respawns, more) <==> AnyStrays(respawns, changes)) && Dated(respawns, |more|)
      && (AnyStrays(notices, more) <==> AnyStrays(notices, changes)) && Dated(notices, |more|)
      && (DisbandedIn(more, 0, |more|) <==> DisbandedIn(changes, 0, |changes|) || c == Disbanded)
  {
    hide AnyStrays;
    var more := changes + [c];
    StraysSame(assists, changes, more);
    StraysSame(respawns, changes, more);
    StraysSame(notices, changes, more);
    assert more[|changes|] == c;
    assert forall j :: 0 <= j < |changes| ==> more[j] == changes[j];
  }

  lemma PutListed(members: seq<Member>, changes: seq<Change>, member: Member, after: seq<Member>)
    requires Listed(members, changes) && Sets(members, member, after)
    requires member.node == if Contains(members, member.guid) then NodeOf(changes, member.guid).value else |changes|
    ensures Listed(after, changes + [Put(member.guid)]) && NodeOf(changes + [Put(member.guid)], member.guid) == Some(member.node)
  {
    hide NodeOf, Contains;
    var more := changes + [Put(member.guid)];
    ContainsIs(members, member.guid);
    NodeOfNext(changes, Put(member.guid), member.guid);
    forall m | m in after ensures NodeOf(more, m.guid) == Some(m.node) {
      NodeOfNext(changes, Put(member.guid), m.guid);
      if m.guid == member.guid {
        SameEntry(after, m, member);
      }
    }
    forall g: word64 | NodeOf(more, g).Some? ensures Contains(after, g) {
      NodeOfNext(changes, Put(member.guid), g);
    }
  }

  /** The member as it goes into the list: in the entry its guid has, if it has one. */
  ghost function Entered(members: seq<Member>, changes: seq<Change>, member: Member): Member {
    var node := NodeOf(changes, member.guid);
    member.(node := if Contains(members, member.guid) && node.Some? then node.value else |changes|)
  }

  lemma SetIs(members: seq<Member>, changes: seq<Change>, member: Member, after: seq<Member>, leader: word64)
    requires Listed(members, changes) && Sets(members, Entered(members, changes, member), after)
    ensures Listed(after, changes + [Put(member.guid)])
    ensures NodeOf(changes + [Put(member.guid)], member.guid) == Some(Entered(members, changes, member).node)
    ensures Contains(after, leader) <==> Contains(members, leader) || leader == member.guid
  {
    hide NodeOf, Contains;
    ContainsIs(members, member.guid);
    PutListed(members, changes, Entered(members, changes, member), after);
  }

  lemma EntryAt(members: seq<Member>, changes: seq<Change>, at: nat)
    requires Listed(members, changes) && at < |members|
    ensures Contains(members, members[at].guid) && NodeOf(changes, members[at].guid) == Some(members[at].node)
  {
    hide NodeOf;
    assert members[at] in members;
  }

  lemma NoEntryAt(members: seq<Member>, at: nat, guid: word64)
    requires Ascending(members) && at <= |members|
    requires forall i :: 0 <= i < at ==> members[i].guid < guid
    requires at < |members| ==> members[at].guid > guid
    ensures !Contains(members, guid)
  {
  }

  lemma SameEntry(members: seq<Member>, a: Member, b: Member)
    requires Ascending(members) && a in members && b in members && a.guid == b.guid
    ensures a == b
  {
    var i, j :| 0 <= i < |members| && 0 <= j < |members| && members[i] == a && members[j] == b;
  }

  lemma ErasedAscending(members: seq<Member>, at: nat)
    requires Ascending(members) && at < |members|
    ensures Ascending(members[..at] + members[at + 1..])
    ensures forall m :: m in members[..at] + members[at + 1..] ==> m.guid != members[at].guid
  {
    var after := members[..at] + members[at + 1..];
    assert forall i :: 0 <= i < |after| ==> after[i] == if i < at then members[i] else members[i + 1];
  }

  lemma ErasedListed(members: seq<Member>, changes: seq<Change>, at: nat)
    requires Listed(members, changes) && at < |members|
    ensures Listed(members[..at] + members[at + 1..], changes + [Erased(members[at].guid)])
    ensures forall m :: m in members[..at] + members[at + 1..] <==> m in members && m.guid != members[at].guid
  {
    hide NodeOf, Contains, Ascending;
    var after, guid := members[..at] + members[at + 1..], members[at].guid;
    var more := changes + [Erased(guid)];
    ErasedAscending(members, at);
    assert members == members[..at] + [members[at]] + members[at + 1..];
    forall m | m in after ensures NodeOf(more, m.guid) == Some(m.node) {
      NodeOfNext(changes, Erased(guid), m.guid);
    }
    forall g: word64 | NodeOf(more, g).Some? ensures Contains(after, g) {
      NodeOfNext(changes, Erased(guid), g);
      InsertedContains(members[..at], members[at + 1..], members[at], g);
    }
  }

  lemma DisbandedListed(changes: seq<Change>)
    ensures Listed([], changes + [Disbanded])
  {
    forall g: word64 ensures NodeOf(changes + [Disbanded], g).None? {
      NodeOfNext(changes, Disbanded, g);
    }
  }

  lemma InformOptions(options: bv32)
    ensures options & (OPTION_INFORM_LEADER_ON_MEMBER_DIED | OPTION_INFORM_MEMBERS_ON_ANY_DIED) == 0 ==>
      options & OPTION_INFORM_LEADER_ON_MEMBER_DIED == 0 && options & OPTION_INFORM_MEMBERS_ON_ANY_DIED == 0
  {
  }

  class CreatureGroup {
    var leaderGuid: word64
    const originalLeaderGuid: word64
    var options: bv32
    var assistGuard: bool
    var respawnGuard: bool
    var members: seq<Member>
    /** How often the list has changed, which numbers its entries. */
    var revision: nat
    /** The group has been deleted; memory that is gone has been used, and nothing is known. */
    var freed: bool
    var broken: bool
    /** The map the creatures are on, and how many more of them die before the calls end. */
    var creatures: map<word64, Creature>
    var deathsLeft: nat
    ghost var changes: seq<Change>
    /** Whom the group asked to assist, to respawn, or told of a death. */
    ghost var assists: seq<Visit>
    ghost var respawns: seq<Visit>
    ghost var notices: seq<Visit>
    /** Who was then made to attack, to respawn, or to evade. */
    ghost var attacked: seq<word64>
    ghost var respawned: seq<word64>
    ghost var informed: seq<word64>
    var evading: set<word64>

    /** Everything but that every visit which lost its way has been accounted for. */
    ghost predicate Consistent()
      reads this
    {
      && Listed(members, changes) && revision == |changes|
      && (freed <==> DisbandedIn(changes, 0, |changes|))
      && Dated(assists, |changes|) && Dated(respawns, |changes|) && Dated(notices, |changes|)
      && (!assistGuard ==> attacked == Passed(assists, Helps))
      && (!respawnGuard ==> respawned == Passed(respawns, Returns))
    }

    ghost predicate Strayed()
      reads this
    {
      AnyStrays(assists, changes) || AnyStrays(respawns, changes) || AnyStrays(notices, changes)
    }

    /** Memory that is gone has been used just when a visit lost its way. */
    ghost predicate Valid()
      reads this
    {
      Consistent() && (broken <==> Strayed())
    }

    /** Whether the group can be called. */
    predicate Sound()
      reads this
    {
      !freed && !broken
    }

    /** The number of guards not set: how deep calls can still nest. */
    ghost function Free(): nat
      reads this
    {
      (if assistGuard then 0 else 1) + (if respawnGuard then 0 else 1)
    }

    /** What no call takes back, and that a guard keeps its cascade from starting again. */
    twostate predicate Kept()
      reads this
    {
      Grown() && (assistGuard ==> attacked == old(attacked)) && (respawnGuard ==> respawned == old(respawned))
    }

    twostate predicate Grown()
      reads this
    {
      && assistGuard == old(assistGuard) && respawnGuard == old(respawnGuard)
      && deathsLeft <= old(deathsLeft)
      && old(changes) <= changes && old(evading) <= evading
      && old(assists) <= assists && old(respawns) <= respawns && old(notices) <= notices
      && old(attacked) <= attacked && old(respawned) <= respawned && old(informed) <= informed
      && (assistGuard ==> assists == old(assists)) && (respawnGuard ==> respawns == old(respawns))
    }

    constructor (leader: word64, land: map<word64, Creature>, deaths: nat)
      ensures Valid() && Sound() && leaderGuid == originalLeaderGuid == leader && members == [] && options == 0
      ensures !assistGuard && !respawnGuard && changes == []
    {
      leaderGuid, originalLeaderGuid, options, members, creatures := leader, leader, 0, [], land;
      assistGuard, respawnGuard, freed, broken, revision, deathsLeft := false, false, false, false, 0, deaths;
      changes, assists, respawns, notices, attacked, respawned, informed, evading := [], [], [], [], [], [], [], {};
    }

    function GetCreature(guid: word64): Option<Creature>
      reads this`creatures
    {
      if guid in creatures then Some(creatures[guid]) else None
    }

    // ---------- Scripts ----------

    /**
     A script runs: the map changes at will, and the group's entry points are called at will, also
     those that change the member list, until the group is deleted.
     */
    method Script()
      requires Valid() && Sound()
      modifies this
      ensures Valid() && Kept()
      decreases deathsLeft, Free(), 4, 2
    {
      hide Listed, Passed, AnyStrays, DisbandedIn, Dated;
      var calls: int := *;
      while calls > 0 && Sound()
        invariant Valid() && Kept()
      {
        creatures := *;
        CallBack();
        calls := calls - 1;
      }
      creatures := *;
    }

    method CallBack()
      requires Valid() && Sound()
      modifies this
      ensures Valid() && Kept()
      decreases deathsLeft, Free(), 4, 1
    {
      hide Valid, Cascade, FullWalk, Meets, Distinct, Passed;
      var entry: int, guid: word64, self: Creature := *, *, *;
      match entry {
        case 0 => OnMemberAttackStart(guid);
        case 1 => OnRespawn(guid);
        case 2 => OnLeaveCombat(guid);
        case 3 => if deathsLeft > 0 { var asked, walk, ledBy := OnMemberDied(guid, self); }
        case 4 => RespawnAll(guid);
        case _ => ChangeList();
      }
    }

    method ChangeList()
      requires Valid() && Sound()
      modifies this
      ensures Valid() && Kept()
      decreases deathsLeft, Free(), 4, 0
    {
      hide Valid, Sets, Contains, NodeOf;
      var entry: int, guid: word64 := *, *;
      match entry {
        case 0 =>
          var dist: real, angle: real, flags: bv32 := *, *, *;
          var added := AddMember(guid, dist, angle, flags);
        case 1 => RemoveMember(guid);
        case 2 => RemoveTemporaryLeader(guid);
        case _ => DisbandGroup();
      }
    }

    method AttackedBy(guid: word64)
      requires Valid() && Sound() && assistGuard
      modifies this
      ensures Valid() && Grown()
      ensures attacked == old(attacked) + [guid] && (respawnGuard ==> respawned == old(respawned))
      decreases deathsLeft, Free(), 5
    {
      attacked := attacked + [guid];
      Script();
    }

    method RespawnCreature(guid: word64)
      requires Valid() && Sound() && respawnGuard
      modifies this
      ensures Valid() && Grown()
      ensures respawned == old(respawned) + [guid] && (assistGuard ==> attacked == old(attacked))
      decreases deathsLeft, Free(), 5
    {
      respawned := respawned + [guid];
      Script();
    }

    // ---------- Assist ----------

    /** Asks one creature for help; when the script has deleted the group, giving the guard back uses freed memory. */
    method MemberAssist(guid: word64, member: Option<Creature>)
      requires Valid() && Sound()
      modifies this
      ensures Valid() && Kept() && (freed ==> broken)
      ensures assistGuard ==> Sound() && changes == old(changes) && members == old(members)
      ensures !assistGuard ==> assists == old(assists) + [Visit(guid, member, false, |old(changes)|, |changes|)]
      ensures !assistGuard ==>
        attacked == old(attacked) +
          if member.Some? && member.value.inWorld && member.value.alive && !member.value.hasVictim && member.value.hasAI then [guid] else []
      decreases deathsLeft, Free(), 1
    {
      hide Listed, Passed, AnyStrays, DisbandedIn, Dated;
      if assistGuard {
        return;
      }
      ghost var v := Visit(guid, member, false, |changes|, |changes|);
      assists := assists + [v];
      VisitBegins(old(assists), v, changes, Helps);
      if member.None? || !member.value.inWorld {
        return;
      }
      if !member.value.alive {
        return;
      }
      if member.value.hasVictim {
        return;
      }
      if member.value.hasAI {
        assistGuard := true;
        AttackedBy(guid);
        if freed {
          broken := true;
        }
        assistGuard := false;
        assert changes[..|old(changes)|] == old(changes);
        VisitEnds(old(assists), v, changes, Helps);
        assists := old(assists) + [v.(until := |changes|)];
      }
    }

    /** Moves a loop's iterator past an entry; one whose entry is no longer there reads freed memory. */
    method MoveOn(m: Member) returns (it: Option<Member>)
      modifies this`broken
      ensures broken <==> old(broken) || !HasNode(members, m.node)
      ensures HasNode(members, m.node) ==> it == Following(members, m.node)
    {
      it := None;
      if HasNode(members, m.node) {
        it := Following(members, m.node);
      } else {
        broken := true;
      }
    }

    /** Asks the members one after the other, in the list as the scripts leave it. */
    method AssistWalk(member: word64)
      requires Valid() && Sound()
      modifies this
      ensures Valid() && Kept() && (freed ==> broken)
      ensures assistGuard ==> Sound() && changes == old(changes)
      ensures !assistGuard && !broken ==>
        FullWalk(changes, member, |old(changes)|, |changes|, assists[|old(assists)|..])
      decreases deathsLeft, Free(), 2
    {
      hide Listed, Passed, AnyStrays, DisbandedIn, Dated, HasNode, Following, Strays, WalksTo, FullWalk, First;
      var it := First(members);
      WalkStarts(members, changes, member);
      ghost var walk: seq<Visit> := [];
      assert assists == old(assists) + walk;
      while it.Some?
        invariant Valid() && Sound() && Kept()
        invariant assistGuard ==> changes == old(changes)
        invariant it.Some? ==> it.value in members
        invariant !assistGuard ==> assists == old(assists) + walk && WalksTo(members, changes, member, |old(changes)|, walk, it)
        decreases if it.Some? then TWO_64 - it.value.guid else 0
      {
        var m := it.value;
        ghost var before, listed, log := changes, members, assists;
        if m.guid != member {
          var seen := GetCreature(m.guid);
          MemberAssist(m.guid, seen);
          if broken {
            return;
          }
          it := MoveOn(m);
          if !assistGuard {
            ghost var v := Visit(m.guid, seen, true, |before|, |changes|);
            WalkStep(listed, before, members, changes, member, |old(changes)|, walk, m, v);
            WalkLogged(log, v, changes, Helps);
            assists, walk := log + [v], walk + [v];
            Append(old(assists), walk[..|walk| - 1], [v]);
          } else {
            GuardedStep(members, changes, m);
          }
          if broken {
            return;
          }
        } else {
          it := MoveOn(m);
          SkipStep(members, changes, member, |old(changes)|, walk, m);
        }
      }
      if !assistGuard {
        WalkEnds(members, changes, member, |old(changes)|, walk);
        assert assists[|old(assists)|..] == walk;
      }
    }

    method OnMemberAttackStart(member: word64)
      requires Valid() && Sound()
      modifies this
      ensures Valid() && Kept() && (freed ==> broken)
      ensures assistGuard ==> Sound() && changes == old(changes)
      ensures !assistGuard && !broken ==>
        if old(options) & 0x002 == 0 then assists == old(assists)
        else Cascade(assists[|old(assists)|..], changes, |old(changes)|, member, originalLeaderGuid)
      ensures !assistGuard ==> attacked == old(attacked) + Passed(assists[|old(assists)|..], Helps)
      ensures !assistGuard && !broken && (member == originalLeaderGuid || !Meets(assists[|old(assists)|..], changes, member, originalLeaderGuid, originalLeaderGuid)) ==>
        Distinct(attacked[|old(attacked)|..])
      decreases deathsLeft, Free(), 3
    {
      hide Listed, Passed, AnyStrays, DisbandedIn, Dated, FullWalk, Meets, Distinct;
      if options & OPTION_AGGRO_TOGETHER == 0 {
        PassedSince(assists, assists, Helps);
        NobodyPasses(Helps);
        return;
      }
      AssistWalk(member);
      PassedSince(old(assists), assists, Helps);
      if broken {
        return;
      }
      ghost var walk, before := assists[|old(assists)|..], changes;
      if member != originalLeaderGuid {
        MemberAssist(originalLeaderGuid, GetCreature(originalLeaderGuid));
        PassedSince(old(assists), assists, Helps);
        if !assistGuard && !broken {
          CascadeMade(before, changes, |old(changes)|, member, originalLeaderGuid, walk, assists[|assists| - 1]);
          assert assists[|old(assists)|..] == walk + [assists[|assists| - 1]];
        }
      }
      if !assistGuard && !broken {
        CascadeActs(old(assists), assists, changes, |old(changes)|, member, originalLeaderGuid, Helps);
      }
    }

    // ---------- Respawn ----------

    /** Respawns one creature; when the script has deleted the group, giving the guard back uses freed memory. */
    method Respawn(guid: word64, member: Creature)
      requires Valid() && Sound()
      modifies this
      ensures Valid() && Kept() && (freed ==> broken)
      ensures respawnGuard ==> Sound() && changes == old(changes) && members == old(members)
      ensures !respawnGuard ==> respawns == old(respawns) + [Visit(guid, Some(member), false, |old(changes)|, |changes|)]
      ensures !respawnGuard ==>
        respawned == old(respawned) + if member.inWorld && member.waiting && member.canBeSpawned then [guid] else []
      ensures respawnGuard || respawned == old(respawned) ==> leaderGuid == old(leaderGuid)
      decreases deathsLeft, Free(), 1
    {
      hide Listed, Passed, AnyStrays, DisbandedIn, Dated;
      if respawnGuard {
        return;
      }
      ghost var v := Visit(guid, Some(member), false, |changes|, |changes|);
      respawns := respawns + [v];
      VisitBegins(old(respawns), v, changes, Returns);
      respawnGuard := true;
      if member.inWorld && member.waiting {
        if member.canBeSpawned {
          RespawnCreature(guid);
        }
      }
      if freed {
        broken := true;
      }
      respawnGuard := false;
      assert changes[..|old(changes)|] == old(changes);
      VisitEnds(old(respawns), v, changes, Returns);
      respawns := old(respawns) + [v.(until := |changes|)];
    }

    /** Respawns the creature if the map has it. */
    method RespawnFound(guid: word64, member: Option<Creature>)
      requires Valid() && Sound()
      modifies this
      ensures Valid() && Kept() && (freed ==> broken)
      ensures respawnGuard ==> Sound() && changes == old(changes) && members == old(members)
      ensures !respawnGuard ==> respawns == old(respawns) + [Visit(guid, member, false, |old(changes)|, |changes|)]
      ensures respawnGuard || respawned == old(respawned) ==> leaderGuid == old(leaderGuid)
      decreases deathsLeft, Free(), 2, 0
    {
      hide Listed, Passed, AnyStrays, DisbandedIn, Dated;
      if member.Some? {
        Respawn(guid, member.value);
      } else if !respawnGuard {
        VisitBegins(respawns, Visit(guid, None, false, |changes|, |changes|), changes, Returns);
        respawns := respawns + [Visit(guid, None, false, |changes|, |changes|)];
      }
    }

    /** Respawns the members one after the other, in the list as the scripts leave it. */
    method RespawnWalk(except: word64)
      requires Valid() && Sound()
      modifies this
      ensures Valid() && Kept() && (freed ==> broken)
      ensures respawnGuard ==> Sound() && changes == old(changes)
      ensures !respawnGuard && !broken ==>
        FullWalk(changes, except, |old(changes)|, |changes|, respawns[|old(respawns)|..])
      ensures respawnGuard || respawned == old(respawned) ==> leaderGuid == old(leaderGuid)
      decreases deathsLeft, Free(), 2, 1
    {
      hide Listed, Passed, AnyStrays, DisbandedIn, Dated, HasNode, Following, Strays, WalksTo, FullWalk, First;
      var it := First(members);
      WalkStarts(members, changes, except);
      ghost var walk: seq<Visit> := [];
      assert respawns == old(respawns) + walk;
      while it.Some?
        invariant Valid() && Sound() && Kept()
        invariant respawnGuard ==> changes == old(changes)
        invariant respawnGuard || respawned == old(respawned) ==> leaderGuid == old(leaderGuid)
        invariant it.Some? ==> it.value in members
        invariant !respawnGuard ==> respawns == old(respawns) + walk && WalksTo(members, changes, except, |old(changes)|, walk, it)
        decreases if it.Some? then TWO_64 - it.value.guid else 0
      {
        var m := it.value;
        ghost var before, listed, log := changes, members, respawns;
        if m.guid != except {
          var seen := GetCreature(m.guid);
          RespawnFound(m.guid, seen);
          if broken {
            return;
          }
          it := MoveOn(m);
          if !respawnGuard {
            ghost var v := Visit(m.guid, seen, true, |before|, |changes|);
            WalkStep(listed, before, members, changes, except, |old(changes)|, walk, m, v);
            WalkLogged(log, v, changes, Returns);
            respawns, walk := log + [v], walk + [v];
            Append(old(respawns), walk[..|walk| - 1], [v]);
          } else {
            GuardedStep(members, changes, m);
          }
          if broken {
            return;
          }
        } else {
          it := MoveOn(m);
          SkipStep(members, changes, except, |old(changes)|, walk, m);
        }
      }
      if !respawnGuard {
        WalkEnds(members, changes, except, |old(changes)|, walk);
        assert respawns[|old(respawns)|..] == walk;
      }
    }

    method RespawnAll(except: word64)
      requires Valid() && Sound()
      modifies this
      ensures Valid() && Kept() && (freed ==> broken)
      ensures respawnGuard ==> Sound() && changes == old(changes)
      ensures !respawnGuard && !broken ==>
        Cascade(respawns[|old(respawns)|..], changes, |old(changes)|, except, originalLeaderGuid)
      ensures !respawnGuard ==> respawned == old(respawned) + Passed(respawns[|old(respawns)|..], Returns)
      ensures !respawnGuard && !broken && (except == originalLeaderGuid || !Meets(respawns[|old(respawns)|..], changes, except, originalLeaderGuid, originalLeaderGuid)) ==>
        Distinct(respawned[|old(respawned)|..])
      ensures respawnGuard || respawned == old(respawned) ==> leaderGuid == old(leaderGuid)
      decreases deathsLeft, Free(), 3, 1
    {
      hide Listed, Passed, AnyStrays, DisbandedIn, Dated, FullWalk, Meets, Distinct;
      RespawnWalk(except);
      PassedSince(old(respawns), respawns, Returns);
      if broken {
        return;
      }
      ghost var walk, before := respawns[|old(respawns)|..], changes;
      if except != originalLeaderGuid {
        RespawnFound(originalLeaderGuid, GetCreature(originalLeaderGuid));
        PassedSince(old(respawns), respawns, Returns);
        if !respawnGuard && !broken {
          CascadeMade(before, changes, |old(changes)|, except, originalLeaderGuid, walk, respawns[|respawns| - 1]);
          assert respawns[|old(respawns)|..] == walk + [respawns[|respawns| - 1]];
        }
      }
      if !respawnGuard && !broken {
        CascadeActs(old(respawns), respawns, changes, |old(changes)|, except, originalLeaderGuid, Returns);
      }
    }

    method OnRespawn(member: word64)
      requires Valid() && Sound()
      modifies this
      ensures Valid() && Kept() && (freed ==> broken)
      ensures respawnGuard ==> Sound() && changes == old(changes)
      ensures !respawnGuard && !broken ==>
        if old(options) & 0x008 == 0 then respawns == old(respawns)
        else Cascade(respawns[|old(respawns)|..], changes, |old(changes)|, member, originalLeaderGuid)
      ensures respawnGuard || respawned == old(respawned) ==>
        leaderGuid == if member == originalLeaderGuid then originalLeaderGuid else old(leaderGuid)
      decreases deathsLeft, Free(), 3, 2
    {
      hide Listed, Passed, AnyStrays, DisbandedIn, Dated, Cascade;
      if leaderGuid != originalLeaderGuid && member == originalLeaderGuid {
        leaderGuid := originalLeaderGuid;
      }
      if options & OPTION_RESPAWN_TOGETHER == 0 {
        return;
      }
      RespawnAll(member);
    }

    // ---------- Evade ----------

    /** The members that are made to evade with the one leaving combat. */
    ghost function Evaders(except: word64): set<word64>
      reads this
    {
      set m | m in members && m.guid != except && Evades(GetCreature(m.guid)) :: m.guid
    }

    method MarkEvaders(except: word64)
      modifies this`evading
      ensures evading == old(evading) + Evaders(except)
      ensures forall m :: m in members && m.guid !in old(evading) ==>
        (m.guid in evading <==>
           m.guid != except && m.guid in creatures
           && creatures[m.guid].inWorld && creatures[m.guid].inCombat && creatures[m.guid].hasAI)
    {
      for i := 0 to |members|
        invariant evading == old(evading) + set m | m in members[..i] && m.guid != except && Evades(GetCreature(m.guid)) :: m.guid
      {
        assert members[..i + 1] == members[..i] + [members[i]];
        if members[i].guid != except {
          var seen := GetCreature(members[i].guid);
          if seen.Some? && seen.value.inWorld && seen.value.inCombat && seen.value.hasAI {
            evading := evading + {members[i].guid};
          }
        }
      }
      assert members[..|members|] == members;
    }

    /** Who evades with the member, and whether that makes everyone respawn. */
    method OnLeaveCombat(member: word64)
      requires Valid() && Sound()
      modifies this
      ensures Valid() && Kept() && (freed ==> broken)
      ensures respawnGuard ==> Sound() && changes == old(changes)
      ensures var together := old(options) & 0x004 != 0;
        var leader := old(GetCreature(originalLeaderGuid));
        var led := together && member != originalLeaderGuid
          && leader.Some? && leader.value.inWorld && leader.value.inCombat && leader.value.hasAI;
        var all := old(options) & 0x020 != 0
          || (old(options) & 0x010 != 0 && (member == originalLeaderGuid || led));
        var marks := (if together then old(Evaders(member)) else {}) + (if led then {originalLeaderGuid} else {});
        && marks <= evading
        && (!all ==> evading == old(evading) + marks && respawns == old(respawns) && Sound())
        && (all && !respawnGuard && !broken ==>
              Cascade(respawns[|old(respawns)|..], changes, |old(changes)|, member, originalLeaderGuid))
      decreases deathsLeft, Free(), 3, 2
    {
      hide Listed, Passed, AnyStrays, DisbandedIn, Dated, Cascade;
      var masterEvade := member == originalLeaderGuid;
      if options & OPTION_EVADE_TOGETHER != 0 {
        MarkEvaders(member);
        if !masterEvade {
          var leader := GetCreature(originalLeaderGuid);
          if leader.Some? && leader.value.inWorld && leader.value.inCombat && leader.value.hasAI {
            masterEvade := true;
            evading := evading + {originalLeaderGuid};
          }
        }
      }
      if options & OPTION_RESPAWN_ALL_ON_ANY_EVADE != 0 || (options & OPTION_RESPAWN_ALL_ON_MASTER_EVADE != 0 && masterEvade) {
        RespawnAll(member);
      }
    }

    // ---------- Deaths ----------

    /** No script has run. */
    twostate predicate Untouched()
      reads this
    {
      && members == old(members) && changes == old(changes) && creatures == old(creatures) && options == old(options)
      && leaderGuid == old(leaderGuid) && informed == old(informed) && Sound()
    }

    /** Tells one creature of a death; no guard keeps its script from causing another. */
    method Inform(guid: word64, seen: Option<Creature>)
      requires Valid() && Sound()
      modifies this
      ensures Valid() && Kept() && (freed ==> broken)
      ensures |notices| > |old(notices)| && old(notices) <= notices[..|notices| - 1]
      ensures notices[|notices| - 1] == Visit(guid, seen, false, |old(changes)|, |changes|)
      ensures if seen.Some? && seen.value.inWorld && seen.value.alive && seen.value.hasAI
        then |informed| > |old(informed)| && informed[|old(informed)|] == guid
        else Untouched()
      decreases deathsLeft, Free(), 5
    {
      hide Listed, Passed, AnyStrays, DisbandedIn, Dated;
      if seen.Some? && seen.value.inWorld && seen.value.alive && seen.value.hasAI {
        informed := informed + [guid];
        Script();
        if freed {
          broken := true;
        }
      }
      ghost var v := Visit(guid, seen, false, |old(changes)|, |changes|);
      assert changes[..|old(changes)|] == old(changes);
      NoticeEnds(notices, v, changes);
      notices := notices + [v];
    }

    method NotifyLeader(member: word64)
      requires Valid() && Sound()
      modifies this
      ensures Valid() && Kept() && (freed ==> broken)
      ensures var told := old(options) & 0x040 != 0 && member != originalLeaderGuid;
        var leader := old(GetCreature(originalLeaderGuid));
        && (told ==> notices != [] && notices[|notices| - 1] == Visit(originalLeaderGuid, leader, false, |old(changes)|, |changes|))
        && (if told && Hears(leader) then |informed| > |old(informed)| && informed[|old(informed)|] == originalLeaderGuid
            else Untouched())
      decreases deathsLeft, Free(), 6
    {
      hide Listed, Passed, AnyStrays, DisbandedIn, Dated;
      if options & OPTION_INFORM_LEADER_ON_MEMBER_DIED != 0 {
        if member != originalLeaderGuid {
          Inform(originalLeaderGuid, GetCreature(originalLeaderGuid));
        }
      }
    }

    /** Tells the other members one after the other, in the list as the scripts leave it. */
    method NotifyMembers(member: word64) returns (ghost walk: seq<Visit>)
      requires Valid() && Sound()
      modifies this
      ensures Valid() && Kept() && (freed ==> broken)
      ensures if old(options) & 0x080 == 0 then Untouched()
        else !broken ==> FullWalk(changes, member, |old(changes)|, |changes|, walk)
      ensures forall v :: v in walk ==> v in notices
      decreases deathsLeft, Free(), 6
    {
      hide Listed, Passed, AnyStrays, DisbandedIn, Dated, HasNode, Following, Strays, WalksTo, FullWalk, First;
      walk := [];
      if options & OPTION_INFORM_MEMBERS_ON_ANY_DIED == 0 {
        return;
      }
      var it := First(members);
      WalkStarts(members, changes, member);
      while it.Some?
        invariant Valid() && Sound() && Kept()
        invariant it.Some? ==> it.value in members
        invariant WalksTo(members, changes, member, |old(changes)|, walk, it)
        invariant forall v :: v in walk ==> v in notices
        decreases if it.Some? then TWO_64 - it.value.guid else 0
      {
        var m := it.value;
        ghost var before, listed := changes, members;
        if m.guid != member {
          var seen := GetCreature(m.guid);
          Inform(m.guid, seen);
          if broken {
            return;
          }
          it := MoveOn(m);
          ghost var v := Visit(m.guid, seen, true, |before|, |changes|);
          WalkStep(listed, before, members, changes, member, |old(changes)|, walk, m, v);
          ghost var log := notices[..|notices| - 1];
          assert notices == log + [v.(walking := false)];
          WalkLogged(log, v, changes, Hears);
          notices, walk := log + [v], walk + [v];
          if broken {
            return;
          }
        } else {
          it := MoveOn(m);
          SkipStep(members, changes, member, |old(changes)|, walk, m);
        }
      }
      WalkEnds(members, changes, member, |old(changes)|, walk);
    }

    predicate Fit(guid: word64, except: word64)
      reads this`creatures
    {
      guid != except && guid in creatures && creatures[guid].inWorld && creatures[guid].alive
    }

    /** The first member, in order, that can lead; the original leader if none can. */
    predicate Elected(guid: word64, except: word64)
      reads this
    {
      if exists i :: 0 <= i < |members| && Fit(members[i].guid, except) then
        exists i :: 0 <= i < |members| && guid == members[i].guid && FirstFit(i, except)
      else guid == originalLeaderGuid
    }

    predicate FirstFit(i: nat, except: word64)
      requires i < |members|
      reads this
    {
      Fit(members[i].guid, except) && forall j :: 0 <= j < i ==> !Fit(members[j].guid, except)
    }

    /** A new leader is elected when the leader of a formation that walks waypoints dies. */
    method Elect(member: word64, self: Creature)
      modifies this`leaderGuid
      ensures Succeeds(old(leaderGuid), member, self)
      ensures var original := if member == originalLeaderGuid then Some(self) else GetCreature(originalLeaderGuid);
        if !(member == old(leaderGuid) && options & 1 == 1 && original.Some? && original.value.waypoints) then leaderGuid == old(leaderGuid)
        else if forall m :: m in members && m.guid in creatures && creatures[m.guid].inWorld && creatures[m.guid].alive ==> m.guid == member
        then leaderGuid == originalLeaderGuid
        else
          && leaderGuid != member && leaderGuid in creatures && creatures[leaderGuid].inWorld && creatures[leaderGuid].alive
          && exists i :: 0 <= i < |members| && leaderGuid == members[i].guid
               && forall j :: 0 <= j < i ==>
                    members[j].guid == member || members[j].guid !in creatures
                    || !creatures[members[j].guid].inWorld || !creatures[members[j].guid].alive
    {
      if member == leaderGuid && options & OPTION_FORMATION_MOVE != 0 {
        var original := if member == originalLeaderGuid then Some(self) else GetCreature(originalLeaderGuid);
        if original.Some? && original.value.waypoints {
          for i := 0 to |members|
            invariant leaderGuid == old(leaderGuid)
            invariant forall j :: 0 <= j < i ==> !Fit(members[j].guid, member)
          {
            if members[i].guid != member {
              if members[i].guid in creatures {
                if creatures[members[i].guid].inWorld && creatures[members[i].guid].alive {
                  leaderGuid := members[i].guid;
                  assert FirstFit(i, member);
                  return;
                }
              }
            }
          }
          leaderGuid := originalLeaderGuid;
        }
      }
    }

    /** Who leads after the death of a member, when `ledBy` led before. */
    predicate Succeeds(ledBy: word64, member: word64, self: Creature)
      reads this
    {
      var original := if member == originalLeaderGuid then Some(self) else GetCreature(originalLeaderGuid);
      if member == ledBy && options & OPTION_FORMATION_MOVE != 0 && original.Some? && original.value.waypoints
      then Elected(leaderGuid, member)
      else leaderGuid == ledBy
    }

    /**
     The dead member's group is told, as far as its options say so, and then elects a leader. The
     members are told, if they are, from change number `asked` on; `ledBy` led when they had been.
     */
    method OnMemberDied(member: word64, self: Creature) returns (ghost asked: Option<nat>, ghost walk: seq<Visit>, ghost ledBy: word64)
      requires Valid() && Sound() && deathsLeft > 0
      modifies this
      ensures Valid() && Kept() && (freed ==> broken)
      ensures deathsLeft < old(deathsLeft)
      ensures var toLeader := old(options) & OPTION_INFORM_LEADER_ON_MEMBER_DIED != 0 && member != originalLeaderGuid;
        if toLeader && Hears(old(GetCreature(originalLeaderGuid)))
        then |informed| > |old(informed)| && informed[|old(informed)|] == originalLeaderGuid
        else !broken ==> (asked == if old(options) & OPTION_INFORM_MEMBERS_ON_ANY_DIED != 0 then Some(|old(changes)|) else None)
      ensures !broken && asked.Some? ==> |old(changes)| <= asked.value && FullWalk(changes, member, asked.value, |changes|, walk)
      ensures forall v :: v in walk ==> v in notices
      ensures !broken ==> Succeeds(ledBy, member, self)
      ensures old(options) & (OPTION_INFORM_LEADER_ON_MEMBER_DIED | OPTION_INFORM_MEMBERS_ON_ANY_DIED) == 0 ==>
        members == old(members) && changes == old(changes) && creatures == old(creatures) && Sound() && ledBy == old(leaderGuid)
      decreases deathsLeft, Free(), 3
    {
      hide Listed, Passed, AnyStrays, DisbandedIn, Dated, FullWalk, Elected, Hears, Succeeds;
      InformOptions(options);
      asked, walk, ledBy := None, [], leaderGuid;
      deathsLeft := deathsLeft - 1;
      NotifyLeader(member);
      if broken {
        return;
      }
      asked := if options & OPTION_INFORM_MEMBERS_ON_ANY_DIED != 0 then Some(|changes|) else None;
      walk := NotifyMembers(member);
      if broken {
        return;
      }
      ledBy := leaderGuid;
      Elect(member, self);
    }

    // ---------- The list ----------

    /** A guid is refused only while it leads: a deposed original leader is not. */
    method AddMember(guid: word64, dist: real, angle: real, flags: bv32) returns (added: bool)
      requires Valid() && Sound()
      modifies this`members, this`options, this`revision, this`changes
      ensures Valid() && Sound() && Kept()
      ensures added <==> guid != leaderGuid
      ensures !added ==> members == old(members) && options == old(options) && changes == old(changes)
      ensures added ==> options == old(options) | flags && changes == old(changes) + [Put(guid)]
      ensures added ==> NodeOf(changes, guid).Some?
      ensures added ==>
        Sets(old(members), Member(guid, NodeOf(changes, guid).value, dist, angle, flags), members)
      ensures Contains(members, originalLeaderGuid) <==>
        Contains(old(members), originalLeaderGuid) || (guid == originalLeaderGuid && leaderGuid != originalLeaderGuid)
    {
      hide NodeOf, Passed, AnyStrays, DisbandedIn, Dated, Contains, Sets;
      if guid == leaderGuid {
        return false;
      }
      added := true;
      options := options | flags;
      LogsSame(assists, respawns, notices, changes, Put(guid));
      var member := Member(guid, revision, dist, angle, flags);
      members := Placed(members, changes, member);
      SetIs(old(members), changes, member, members, originalLeaderGuid);
      revision, changes := revision + 1, changes + [Put(guid)];
    }

    method RemoveMember(guid: word64)
      requires Valid() && Sound()
      modifies this`members, this`revision, this`changes
      ensures Valid() && Sound() && Kept()
      ensures forall m: Member :: m in members <==> m in old(members) && m.guid != guid
      ensures changes == old(changes) + if Contains(old(members), guid) then [Erased(guid)] else []
    {
      hide NodeOf, Passed, AnyStrays, DisbandedIn, Dated;
      var at := 0;
      while at < |members|
        invariant 0 <= at <= |members|
        invariant forall i :: 0 <= i < at ==> members[i].guid != guid
      {
        if members[at].guid == guid {
          LogsSame(assists, respawns, notices, changes, Erased(guid));
          ErasedListed(members, changes, at);
          members := members[..at] + members[at + 1..];
          revision, changes := revision + 1, changes + [Erased(guid)];
          return;
        }
        at := at + 1;
      }
    }

    method RemoveTemporaryLeader(leader: word64)
      requires Valid() && Sound()
      modifies this`members, this`leaderGuid, this`revision, this`changes
      ensures Valid() && Sound() && Kept() && leaderGuid == originalLeaderGuid
      ensures forall m: Member :: m in members <==> m in old(members) && m.guid != leader
      ensures changes == old(changes) + if Contains(old(members), leader) then [Erased(leader)] else []
    {
      leaderGuid := originalLeaderGuid;
      RemoveMember(leader);
    }

    /** The list is emptied, and the original leader, who alone disbands, deletes the group. */
    method DisbandGroup()
      requires Valid() && Sound()
      modifies this`members, this`freed, this`revision, this`changes
      ensures Valid() && Kept() && freed && !broken && members == [] && changes == old(changes) + [Disbanded]
    {
      hide NodeOf, Passed, AnyStrays, DisbandedIn, Dated;
      LogsSame(assists, respawns, notices, changes, Disbanded);
      DisbandedListed(changes);
      members, freed := [], true;
      revision, changes := revision + 1, changes + [Disbanded];
    }
  }

  /** Puts a member in its place, or rewrites the entry its guid has. */
  method Placed(members: seq<Member>, ghost changes: seq<Change>, member: Member) returns (after: seq<Member>)
    requires Listed(members, changes) && member.node == |changes|
    ensures Sets(members, Entered(members, changes, member), after)
  {
    hide NodeOf, Contains, Sets;
    var at := 0;
    while at < |members| && members[at].guid < member.guid
      invariant 0 <= at <= |members|
      invariant forall i :: 0 <= i < at ==> members[i].guid < member.guid
    {
      at := at + 1;
    }
    if at < |members| && members[at].guid == member.guid {
      EntryAt(members, changes, at);
      ReplacedAt(members, at, member.(node := members[at].node));
      after := members[at := member.(node := members[at].node)];
    } else {
      NoEntryAt(members, at, member.guid);
      InsertedAt(members, at, member);
      after := members[..at] + [member] + members[at..];
    }
  }

  // ---------- Runs the walks can take ----------

  const TWO := Member(2, 0, 0.0, 0.0, 0)
  const THREE := Member(3, 1, 0.0, 0.0, 0)

  /** A member that leaves while it is visited takes the iterator's entry with it. */
  lemma VisitedMemberLeaves(seen: Option<Creature>)
    ensures Listed([TWO, THREE], [Put(2), Put(3)]) && First([TWO, THREE]) == Some(TWO)
    ensures var changes := [Put(2), Put(3)] + [Erased(2)];
      Listed([THREE], changes) && !HasNode([THREE], TWO.node) && Strays(Visit(2, seen, true, 2, 3), changes)
  {
    TwoPut(2, 3);
    assert [TWO, THREE][..0] + [TWO, THREE][1..] == [THREE];
    hide Listed;
    ErasedListed([TWO, THREE], [Put(2), Put(3)], 0);
    assert ([Put(2), Put(3)] + [Erased(2)])[2] == Erased(2);
  }

  /** Joining again before the visit ends does not bring the entry back. */
  lemma JoiningAgainIsTooLate(seen: Option<Creature>)
    ensures var changes, again := [Put(2), Put(3)] + [Erased(2)] + [Put(2)], TWO.(node := 3);
      Listed([again, THREE], changes) && !HasNode([again, THREE], TWO.node) && Strays(Visit(2, seen, true, 2, 4), changes)
  {
    var left, again := [Put(2), Put(3)] + [Erased(2)], TWO.(node := 3);
    VisitedMemberLeaves(seen);
    assert !Contains([THREE], 2);
    JoinsFirst(left, again);
    assert (left + [Put(2)])[2] == Erased(2);
    hide Listed;
  }

  lemma JoinsFirst(left: seq<Change>, again: Member)
    requires Listed([THREE], left) && again.guid == 2 && again.node == |left| && !Contains([THREE], 2)
    ensures Listed([again, THREE], left + [Put(2)])
  {
    hide Listed, Contains, Sets, NodeOf;
    InsertedAt([THREE], 0, again);
    assert [THREE][..0] + [again] + [THREE][0..] == [again, THREE];
    PutListed([THREE], left, again, [again, THREE]);
  }

  lemma TwoPut(a: word64, b: word64)
    requires a < b
    ensures Listed([Member(a, 0, 0.0, 0.0, 0), Member(b, 1, 0.0, 0.0, 0)], [Put(a), Put(b)])
  {
    assert [Put(a), Put(b)][..1] == [Put(a)] && [Put(a)][..0] == [];
    assert forall g: word64 :: NodeOf([], g) == None;
    forall g: word64 ensures NodeOf([Put(a), Put(b)], g) == if g == a then Some(0) else if g == b then Some(1) else None {
      NodeOfNext([], Put(a), g);
      NodeOfNext([Put(a)], Put(b), g);
      assert [] + [Put(a)] == [Put(a)] && [Put(a)] + [Put(b)] == [Put(a), Put(b)];
    }
    var members := [Member(a, 0, 0.0, 0.0, 0), Member(b, 1, 0.0, 0.0, 0)];
    assert members[0].guid == a && members[1].guid == b;
  }

  /** With the original leader among the members, a cascade makes it act twice. */
  lemma OriginalLeaderActsTwice(seen: Option<Creature>)
    requires Helps(seen)
    ensures var changes := [Put(1), Put(2)];
      var visits := [Visit(1, seen, true, 2, 2), Visit(1, seen, false, 2, 2)];
      Cascade(visits, changes, 2, 2, 1) && Passed(visits, Helps) == [1, 1]
  {
    var members := [Member(1, 0, 0.0, 0.0, 0), Member(2, 1, 0.0, 0.0, 0)];
    var changes := [Put(1), Put(2)];
    var first, second := Visit(1, seen, true, 2, 2), Visit(1, seen, false, 2, 2);
    TwoPut(1, 2);
    PassedNext([], first, Helps);
    PassedNext([first], second, Helps);
    assert [] + [first] == [first] && [first] + [second] == [first, second] && [first, second][..1] == [first];
    assert [1] + [1] == [1, 1];
    hide NodeOf, Passed;
    assert changes[..2] == changes && [first][..0] == [];
    assert members[0] in members;
    assert Clear(changes, 2, -1, 1) && Clear(changes, 2, 1, TWO_64) by {
      assert forall g: word64 :: Contains(members, g) ==> g == 1 || g == 2;
    }
    assert IsNext(changes, 2, 2, -1, first);
    assert Walks(changes, 2, 2, [first]);
  }
}
