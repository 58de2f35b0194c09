/**
 Walks over a group's ordered member list while callbacks change it: what the list's history
 says of each entry, and whom a walk turns to.
 */
module GroupWalks {
  import opened Wrappers
  import opened Bytes
  import opened Sequences

  /** What the group reads of a creature; `waiting` for its respawn time to come. */
  datatype Creature = Creature(
    inWorld: bool,
    alive: bool,
    hasVictim: bool,
    hasAI: bool,
    inCombat: bool,
    waiting: bool,
    canBeSpawned: bool,
    waypoints: bool)

  /** `node` tells this entry of the list from any other the guid ever had. */
  datatype Member = Member(guid: word64, node: nat, followDistance: real, followAngle: real, flags: bv32)

  datatype Change = Put(guid: word64) | Erased(guid: word64) | Disbanded

  /**
   A creature the group turned to, what the map showed of it, whether the list's iterator was at
   it meanwhile, and how many changes the list had seen before and after.
   */
  datatype Visit = Visit(guid: word64, seen: Option<Creature>, walking: bool, since: nat, until: nat)

  predicate Ascending(members: seq<Member>) {
    forall i, j :: 0 <= i < j < |members| ==> members[i].guid < members[j].guid
  }

  predicate Contains(members: seq<Member>, guid: word64) {
    exists i :: 0 <= i < |members| && members[i].guid == guid
  }

  // ---------- What the history of a list says ----------

  /** The entry of a guid: the change that put it in, if nothing has taken it out since. */
  function NodeOf(changes: seq<Change>, g: word64): Option<nat> {
    if changes == [] then None
    else
      var front, last := changes[..|changes| - 1], changes[|changes| - 1];
      if last == Disbanded || last == Erased(g) then None
      else if last == Put(g) && NodeOf(front, g).None? then Some(|front|)
      else NodeOf(front, g)
  }

  /** Something between two points of the history takes the guid out. */
  predicate Gone(changes: seq<Change>, since: nat, until: nat, g: word64) {
    exists j :: since <= j < until && j < |changes| && (changes[j] == Disbanded || changes[j] == Erased(g))
  }

  predicate DisbandedIn(changes: seq<Change>, since: nat, until: nat) {
    exists j :: since <= j < until && j < |changes| && changes[j] == Disbanded
  }

  lemma NodeOfNext(changes: seq<Change>, c: Change, g: word64)
    ensures NodeOf(changes + [c], g)
         == if c == Disbanded || c == Erased(g) then None
            else if c == Put(g) && NodeOf(changes, g).None? then Some(|changes|)
            else NodeOf(changes, g)
  {
    assert (changes + [c])[..|changes|] == changes;
  }

  lemma {:induction false} NodeIsPut(changes: seq<Change>, g: word64)
    requires NodeOf(changes, g).Some?
    ensures NodeOf(changes, g).value < |changes| && changes[NodeOf(changes, g).value] == Put(g)
  {
    var front := changes[..|changes| - 1];
    if NodeOf(front, g).Some? {
      NodeIsPut(front, g);
    }
  }

  /** An entry stays the guid's entry exactly as long as nothing takes the guid out. */
  lemma {:induction false} EntryStays(changes: seq<Change>, since: nat, g: word64)
    requires since <= |changes| && NodeOf(changes[..since], g).Some?
    ensures NodeOf(changes, g) == NodeOf(changes[..since], g) <==> !Gone(changes, since, |changes|, g)
    ensures NodeOf(changes, g).None? || NodeOf(changes, g) == NodeOf(changes[..since], g) || NodeOf(changes, g).value >= since
  {
    NodeIsPut(changes[..since], g);
    if since == |changes| {
      assert changes[..since] == changes;
    } else {
      var front, last := changes[..|changes| - 1], changes[|changes| - 1];
      assert front[..since] == changes[..since];
      EntryStays(front, since, g);
      assert Gone(changes, since, |changes|, g)
        <==> Gone(front, since, |front|, g) || last == Disbanded || last == Erased(g);
    }
  }

  // ---------- The list and its iterators ----------

  /** The list holds the guids its history says, each in the entry that history says. */
  ghost predicate Listed(members: seq<Member>, changes: seq<Change>) {
    && Ascending(members)
    && (forall m :: m in members ==> NodeOf(changes, m.guid) == Some(m.node))
    && (forall g {:trigger NodeOf(changes, g)} :: NodeOf(changes, g).Some? ==> Contains(members, g))
  }

  predicate HasNode(members: seq<Member>, node: nat) {
    exists i :: 0 <= i < |members| && members[i].node == node
  }

  /** Where an entry is in the list. */
  function Place(members: seq<Member>, node: nat): (at: nat)
    ensures at <= |members|
    ensures at < |members| ==> members[at].node == node
    ensures HasNode(members, node) ==> at < |members|
  {
    if members == [] then 0
    else if members[0].node == node then 0
    else
      assert HasNode(members, node) ==> HasNode(members[1..], node) by {
        assert forall i :: 1 <= i < |members| ==> members[i] == members[1..][i - 1];
      }
      1 + Place(members[1..], node)
  }

  function First(members: seq<Member>): Option<Member> {
    if members == [] then None else Some(members[0])
  }

  /** The entry after one that is still in the list. */
  function Following(members: seq<Member>, node: nat): Option<Member>
    requires HasNode(members, node)
  {
    var at := Place(members, node);
    if at + 1 < |members| then Some(members[at + 1]) else None
  }

  /** An iterator taken earlier still has its entry exactly when nothing has taken the guid out. */
  lemma IteratorHolds(members: seq<Member>, changes: seq<Change>, since: nat, m: Member)
    requires Listed(members, changes) && since <= |changes| && NodeOf(changes[..since], m.guid) == Some(m.node)
    ensures HasNode(members, m.node) <==> !Gone(changes, since, |changes|, m.guid)
    ensures HasNode(members, m.node) ==> members[Place(members, m.node)].guid == m.guid
  {
    hide NodeOf, Gone;
    EntryStays(changes, since, m.guid);
    NodeIsPut(changes[..since], m.guid);
    if HasNode(members, m.node) {
      var at := Place(members, m.node);
      NodeIsPut(changes, members[at].guid);
    }
    if NodeOf(changes, m.guid) == Some(m.node) {
      var i :| 0 <= i < |members| && members[i].guid == m.guid;
      assert members[i].node == m.node;
    }
  }

  // ---------- Walks ----------

  /** No guid strictly between the two is in the list, but perhaps the one left out. */
  ghost predicate Clear(changes: seq<Change>, except: word64, low: int, high: int) {
    forall g: word64 {:trigger NodeOf(changes, g)} :: low < g < high && g != except ==> NodeOf(changes, g).None?
  }

  function LastOf(walk: seq<Visit>): int {
    if walk == [] then -1 else walk[|walk| - 1].guid
  }

  /** The visit is to the least guid in the list above the last one. */
  ghost predicate IsNext(changes: seq<Change>, except: word64, from: nat, last: int, v: Visit) {
    && from <= v.since <= v.until <= |changes| && v.walking
    && v.guid != except && last < v.guid && NodeOf(changes[..v.since], v.guid).Some?
    && Clear(changes[..v.since], except, last, v.guid)
  }

  /** Each visit is to the least guid above the last, in the list as it was then. */
  ghost predicate Walks(changes: seq<Change>, except: word64, from: nat, walk: seq<Visit>) {
    walk == [] ||
    (Walks(changes, except, from, walk[..|walk| - 1]) &&
     IsNext(changes, except, from, LastOf(walk[..|walk| - 1]), walk[|walk| - 1]))
  }

  /** A whole walk, which ends when nothing in the list is above its last visit. */
  ghost predicate FullWalk(changes: seq<Change>, except: word64, from: nat, end: nat, walk: seq<Visit>) {
    && from <= end <= |changes| && (forall v :: v in walk ==> v.until <= end)
    && Walks(changes, except, from, walk) && Clear(changes[..end], except, LastOf(walk), TWO_64)
  }

  /** Where a walk's iterator is: at the least guid above the last visit, or at the end. */
  ghost predicate Ahead(members: seq<Member>, changes: seq<Change>, except: word64, last: int, it: Option<Member>) {
    && (it.Some? ==> it.value in members && last < it.value.guid)
    && Clear(changes, except, last, if it.Some? then it.value.guid else TWO_64)
  }

  /** One step of the iterator, after a visit or past the guid left out. */
  lemma MoveAhead(members: seq<Member>, changes: seq<Change>, except: word64, last: int, m: Member)
    requires Listed(members, changes) && HasNode(members, m.node) && members[Place(members, m.node)].guid == m.guid
    requires last == m.guid || (m.guid == except && last < m.guid && Clear(changes, except, last, m.guid))
    ensures Ahead(members, changes, except, last, Following(members, m.node))
    ensures Following(members, m.node).Some? ==> Following(members, m.node).value.guid > m.guid
  {
    hide NodeOf, Place, HasNode;
    var it := Following(members, m.node);
    var high := if it.Some? then it.value.guid else TWO_64;
    assert forall i :: 0 <= i < |members| ==> members[i].guid <= m.guid || members[i].guid >= high;
    assert forall g: word64 :: m.guid < g < high ==> !Contains(members, g);
  }

  lemma {:induction false} WalksOn(changes: seq<Change>, more: seq<Change>, except: word64, from: nat, walk: seq<Visit>)
    requires Walks(changes, except, from, walk) && changes <= more
    ensures Walks(more, except, from, walk)
  {
    if walk != [] {
      var v := walk[|walk| - 1];
      assert more[..v.since] == changes[..v.since];
      WalksOn(changes, more, except, from, walk[..|walk| - 1]);
    }
  }

  lemma WalksNext(changes: seq<Change>, except: word64, from: nat, walk: seq<Visit>, v: Visit)
    requires Walks(changes, except, from, walk) && IsNext(changes, except, from, LastOf(walk), v)
    ensures Walks(changes, except, from, walk + [v]) && LastOf(walk + [v]) == v.guid
  {
    assert (walk + [v])[..|walk|] == walk;
  }

  // ---------- Whom a walk turns to ----------

  function Guids(visits: seq<Visit>): (guids: seq<word64>)
    ensures |guids| == |visits|
  {
    seq(|visits|, i requires 0 <= i < |visits| => visits[i].guid)
  }

  /** A walk goes up: whatever callbacks do to the list, nobody is visited twice. */
  lemma {:induction false} WalkAscends(changes: seq<Change>, except: word64, from: nat, walk: seq<Visit>)
    requires Walks(changes, except, from, walk)
    ensures forall i, j :: 0 <= i < j < |walk| ==> walk[i].guid < walk[j].guid
    ensures Distinct(Guids(walk)) && except !in Guids(walk)
  {
    if walk != [] {
      hide NodeOf, Clear;
      var front, v := walk[..|walk| - 1], walk[|walk| - 1];
      WalkAscends(changes, except, from, front);
      assert forall i :: 0 <= i < |front| ==> front[i] == walk[i] && walk[i].guid <= LastOf(front) && front[i].guid == Guids(front)[i];
      assert forall i :: 0 <= i < |walk| ==> Guids(walk)[i] == walk[i].guid;
    }
  }

  /** The guid is in the list all the while. */
  ghost predicate Stays(changes: seq<Change>, from: nat, end: nat, g: word64) {
    forall t {:trigger changes[..t]} :: from <= t <= end && t <= |changes| ==> NodeOf(changes[..t], g).Some?
  }

  /** The guid is never in the list. */
  ghost predicate Absent(changes: seq<Change>, from: nat, end: nat, g: word64) {
    forall t {:trigger changes[..t]} :: from <= t <= end && t <= |changes| ==> NodeOf(changes[..t], g).None?
  }

  /** A walk visits every member that is in the list throughout, and nobody who never is. */
  lemma {:induction false} WalkMissesNobody(changes: seq<Change>, except: word64, from: nat, end: nat, walk: seq<Visit>, g: word64)
    requires FullWalk(changes, except, from, end, walk)
    ensures Stays(changes, from, end, g) && g != except ==> g in Guids(walk)
    ensures Absent(changes, from, end, g) ==> g !in Guids(walk)
  {
    hide NodeOf;
    if Stays(changes, from, end, g) && g != except {
      assert NodeOf(changes[..end], g).Some?;
      PassesThrough(changes, except, from, end, walk, g);
    }
    if Absent(changes, from, end, g) {
      NotVisited(changes, except, from, end, walk, g);
    }
  }

  lemma {:induction false} PassesThrough(changes: seq<Change>, except: word64, from: nat, end: nat, walk: seq<Visit>, g: word64)
    requires Walks(changes, except, from, walk) && from <= end <= |changes| && forall v :: v in walk ==> v.until <= end
    requires Stays(changes, from, end, g) && g != except && LastOf(walk) >= g
    ensures g in Guids(walk)
  {
    hide NodeOf;
    var front, v := walk[..|walk| - 1], walk[|walk| - 1];
    assert Guids(walk)[|walk| - 1] == v.guid && v in walk;
    if v.guid > g {
      assert NodeOf(changes[..v.since], g).Some?;
      PassesThrough(changes, except, from, end, front, g);
      var i :| 0 <= i < |front| && Guids(front)[i] == g;
      assert Guids(walk)[i] == g;
    }
  }

  lemma {:induction false} NotVisited(changes: seq<Change>, except: word64, from: nat, end: nat, walk: seq<Visit>, g: word64)
    requires Walks(changes, except, from, walk) && from <= end <= |changes| && forall v :: v in walk ==> v.until <= end
    requires Absent(changes, from, end, g)
    ensures g !in Guids(walk)
  {
    hide NodeOf;
    if walk != [] {
      var v := walk[|walk| - 1];
      assert v in walk;
      NotVisited(changes, except, from, end, walk[..|walk| - 1], g);
      forall i | 0 <= i < |walk| ensures Guids(walk)[i] != g {
        if i < |walk| - 1 {
          assert Guids(walk[..|walk| - 1])[i] == Guids(walk)[i];
        } else {
          assert NodeOf(changes[..v.since], v.guid).Some?;
        }
      }
    }
  }

  // ---------- When a walk comes to a guid ----------

  /** How many changes the list had seen when the walk came to a guid's place: at its first visit at or above it, or at its end. */
  function Comes(walk: seq<Visit>, end: nat, g: word64): nat {
    if LastOf(walk) < g then end else Comes(walk[..|walk| - 1], walk[|walk| - 1].since, g)
  }

  /** The guid was in the list then. */
  predicate ListedAt(changes: seq<Change>, t: nat, g: word64) {
    t <= |changes| && NodeOf(changes[..t], g).Some?
  }

  /** Whoever is in the list as the walk comes to its place is visited, and nobody else. */
  lemma VisitedExactly(changes: seq<Change>, except: word64, from: nat, end: nat, walk: seq<Visit>, g: word64)
    requires FullWalk(changes, except, from, end, walk) && g != except
    ensures g in Guids(walk) <==> ListedAt(changes, Comes(walk, end, g), g)
    ensures from <= Comes(walk, end, g) <= |changes|
  {
    hide NodeOf, Clear, Walks;
    VisitedBelow(changes, except, from, end, TWO_64, walk, g);
  }

  lemma {:induction false} VisitedBelow(changes: seq<Change>, except: word64, from: nat, end: nat, high: int, walk: seq<Visit>, g: word64)
    requires Walks(changes, except, from, walk) && from <= end <= |changes| && g < high && g != except
    requires Clear(changes[..end], except, LastOf(walk), high)
    ensures g in Guids(walk) <==> ListedAt(changes, Comes(walk, end, g), g)
    ensures from <= Comes(walk, end, g) <= |changes|
    decreases |walk|
  {
    hide NodeOf;
    WalkAscends(changes, except, from, walk);
    if LastOf(walk) < g {
      assert forall i :: 0 <= i < |walk| ==> Guids(walk)[i] == walk[i].guid && walk[i].guid <= LastOf(walk);
    } else {
      var front, v := walk[..|walk| - 1], walk[|walk| - 1];
      assert Guids(walk) == Guids(front) + [v.guid];
      if v.guid > g {
        VisitedBelow(changes, except, from, v.since, v.guid, front, g);
      }
    }
  }

  // ---------- When nothing changes ----------

  /** The members but one, in order. */
  function Others(members: seq<Member>, except: word64): seq<word64> {
    if members == [] then []
    else
      var rest := Others(members[..|members| - 1], except);
      var last := members[|members| - 1].guid;
      if last == except then rest else rest + [last]
  }

  predicate Rising(s: seq<word64>) {
    forall i, j :: 0 <= i < j < |s| ==> s[i] < s[j]
  }

  lemma {:induction false} OthersAre(members: seq<Member>, except: word64)
    requires Ascending(members)
    ensures forall g: word64 :: g in Others(members, except) <==> Contains(members, g) && g != except
    ensures Rising(Others(members, except))
  {
    if members != [] {
      var rest, last := members[..|members| - 1], members[|members| - 1];
      OthersAre(rest, except);
      ContainsLast(rest, last);
      assert members == rest + [last];
      hide Contains;
      assert forall i :: 0 <= i < |Others(rest, except)| ==> Others(rest, except)[i] in Others(rest, except);
    }
  }

  lemma ContainsLast(rest: seq<Member>, last: Member)
    requires Ascending(rest + [last])
    ensures forall g: word64 :: Contains(rest + [last], g) <==> Contains(rest, g) || g == last.guid
    ensures forall g: word64 :: Contains(rest, g) ==> g < last.guid
  {
    var all := rest + [last];
    assert all[|rest|] == last && forall i :: 0 <= i < |rest| ==> all[i] == rest[i];
    forall g: word64 | Contains(rest, g) ensures Contains(all, g) && g < last.guid {
      var i :| 0 <= i < |rest| && rest[i].guid == g;
      assert all[i].guid == g;
    }
  }

  lemma RisingFront(s: seq<word64>)
    requires Rising(s) && s != []
    ensures var front, last := s[..|s| - 1], s[|s| - 1];
      && Rising(front) && s == front + [last] && last in s
      && (forall g: word64 :: g in front <==> g in s && g != last) && (forall g: word64 :: g in s ==> g <= last)
  {
    var front, last := s[..|s| - 1], s[|s| - 1];
    assert s == front + [last];
    forall g: word64 | g in front ensures g < last {
      var i :| 0 <= i < |front| && front[i] == g;
      assert s[i] == g;
    }
  }

  /** Rising sequences of the same elements are the same. */
  lemma {:induction false} RisingSame(a: seq<word64>, b: seq<word64>)
    requires Rising(a) && Rising(b) && forall g: word64 :: g in a <==> g in b
    ensures a == b
  {
    hide Rising;
    assert |b| > 0 ==> b[0] in a;
    if a != [] {
      assert a[0] in a && a[0] in b;
      RisingFront(a);
      RisingFront(b);
      assert a[|a| - 1] == b[|b| - 1];
      RisingSame(a[..|a| - 1], b[..|b| - 1]);
    }
  }

  /** A walk during which the list does not change visits the other members in order. */
  lemma QuietWalk(members: seq<Member>, changes: seq<Change>, except: word64, walk: seq<Visit>)
    requires Listed(members, changes) && FullWalk(changes, except, |changes|, |changes|, walk)
    ensures Guids(walk) == Others(members, except)
  {
    hide NodeOf, Others;
    OthersAre(members, except);
    WalkAscends(changes, except, |changes|, walk);
    assert changes[..|changes|] == changes;
    forall g: word64 ensures g in Guids(walk) <==> g in Others(members, except) {
      WalkMissesNobody(changes, except, |changes|, |changes|, walk, g);
      QuietStays(members, changes, g);
    }
    RisingSame(Guids(walk), Others(members, except));
  }

  lemma QuietStays(members: seq<Member>, changes: seq<Change>, g: word64)
    requires Listed(members, changes)
    ensures if Contains(members, g) then Stays(changes, |changes|, |changes|, g) else Absent(changes, |changes|, |changes|, g)
  {
    hide NodeOf;
    assert changes[..|changes|] == changes;
    if i :| 0 <= i < |members| && members[i].guid == g {
      assert members[i] in members;
    }
  }

  // ---------- Visits that lose their way ----------

  /** During the visit its member was removed from under the iterator, or the group was disbanded. */
  predicate Strays(v: Visit, changes: seq<Change>) {
    DisbandedIn(changes, v.since, v.until) || (v.walking && Gone(changes, v.since, v.until, v.guid))
  }

  predicate AnyStrays(visits: seq<Visit>, changes: seq<Change>) {
    exists i :: 0 <= i < |visits| && Strays(visits[i], changes)
  }

  predicate Dated(visits: seq<Visit>, now: nat) {
    forall i :: 0 <= i < |visits| ==> visits[i].since <= visits[i].until <= now
  }

  lemma StraysSame(visits: seq<Visit>, changes: seq<Change>, more: seq<Change>)
    requires Dated(visits, |changes|) && changes <= more
    ensures AnyStrays(visits, more) <==> AnyStrays(visits, changes)
    ensures Dated(visits, |more|)
  {
    forall i | 0 <= i < |visits| ensures Strays(visits[i], more) <==> Strays(visits[i], changes) {
      StraySame(visits[i], changes, more);
    }
  }

  lemma StraySame(v: Visit, changes: seq<Change>, more: seq<Change>)
    requires v.until <= |changes| && changes <= more
    ensures Strays(v, more) <==> Strays(v, changes)
  {
    assert forall j :: 0 <= j < v.until ==> more[j] == changes[j];
  }

  lemma StraysNext(visits: seq<Visit>, v: Visit, changes: seq<Change>)
    ensures AnyStrays(visits + [v], changes) <==> AnyStrays(visits, changes) || Strays(v, changes)
  {
    hide Strays;
    var all := visits + [v];
    assert all[|visits|] == v;
    assert forall i :: 0 <= i < |visits| ==> all[i] == visits[i];
  }

  // ---------- One turn of a loop over the list ----------

  /** How far a loop has come: what it has visited, and where its iterator is. */
  ghost predicate WalksTo(members: seq<Member>, changes: seq<Change>, except: word64, from: nat, walk: seq<Visit>, it: Option<Member>) {
    && from <= |changes| && Dated(walk, |changes|)
    && Walks(changes, except, from, walk) && Ahead(members, changes, except, LastOf(walk), it)
  }

  lemma WalkStarts(members: seq<Member>, changes: seq<Change>, except: word64)
    requires Listed(members, changes)
    ensures WalksTo(members, changes, except, |changes|, [], First(members))
    ensures First(members).Some? ==> First(members).value in members
  {
    hide NodeOf;
  }

  lemma WalkEnds(members: seq<Member>, changes: seq<Change>, except: word64, from: nat, walk: seq<Visit>)
    requires WalksTo(members, changes, except, from, walk, None)
    ensures FullWalk(changes, except, from, |changes|, walk)
  {
    hide NodeOf, Walks;
    assert changes[..|changes|] == changes;
  }

  /** A turn that visits a member: the visit strays just when the iterator's entry is gone. */
  lemma WalkStep(listed: seq<Member>, before: seq<Change>, members: seq<Member>, changes: seq<Change>,
                 except: word64, from: nat, walk: seq<Visit>, m: Member, v: Visit)
    requires Listed(listed, before) && WalksTo(listed, before, except, from, walk, Some(m)) && m.guid != except
    requires Listed(members, changes) && before <= changes && !DisbandedIn(changes, 0, |changes|)
    requires v == Visit(m.guid, v.seen, true, |before|, |changes|)
    ensures Strays(v, changes) <==> !HasNode(members, m.node)
    ensures HasNode(members, m.node) ==>
      var it := Following(members, m.node);
      WalksTo(members, changes, except, from, walk + [v], it) && (it.Some? ==> it.value in members && it.value.guid > m.guid)
  {
    hide NodeOf, Place, HasNode, Following, Clear, Walks;
    assert changes[..|before|] == before;
    EntryListed(listed, before, m);
    IteratorHolds(members, changes, |before|, m);
    WalksOn(before, changes, except, from, walk);
    assert IsNext(changes, except, from, LastOf(walk), v);
    WalksNext(changes, except, from, walk, v);
    assert forall i :: 0 <= i < |walk| ==> (walk + [v])[i] == walk[i];
    if HasNode(members, m.node) {
      MoveAhead(members, changes, except, m.guid, m);
    }
  }

  lemma EntryListed(members: seq<Member>, changes: seq<Change>, m: Member)
    requires Listed(members, changes) && m in members
    ensures NodeOf(changes, m.guid) == Some(m.node)
    ensures HasNode(members, m.node) && members[Place(members, m.node)].guid == m.guid
  {
    hide NodeOf;
    var i :| 0 <= i < |members| && members[i] == m;
    assert members[i].node == m.node;
    NodeIsPut(changes, m.guid);
    var at := Place(members, m.node);
    NodeIsPut(changes, members[at].guid);
  }

  /** A turn that passes by the member left out. */
  lemma SkipStep(members: seq<Member>, changes: seq<Change>, except: word64, from: nat, walk: seq<Visit>, m: Member)
    requires Listed(members, changes) && m in members && m.guid == except
    ensures HasNode(members, m.node)
    ensures WalksTo(members, changes, except, from, walk, Some(m)) ==> WalksTo(members, changes, except, from, walk, Following(members, m.node))
    ensures var it := Following(members, m.node); it.Some? ==> it.value in members && it.value.guid > m.guid
  {
    hide NodeOf, Place, HasNode, Clear, Walks;
    GuardedStep(members, changes, m);
    EntryListed(members, changes, m);
    if WalksTo(members, changes, except, from, walk, Some(m)) {
      MoveAhead(members, changes, except, LastOf(walk), m);
    }
  }

  /** A turn that changes nothing. */
  lemma GuardedStep(members: seq<Member>, changes: seq<Change>, m: Member)
    requires Listed(members, changes) && m in members
    ensures HasNode(members, m.node)
    ensures var it := Following(members, m.node); it.Some? ==> it.value in members && it.value.guid > m.guid
  {
    hide NodeOf;
    EntryListed(members, changes, m);
  }
}
