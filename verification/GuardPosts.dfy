/** Guard posts: how often the guards of an area can be called over any stretch of any run. */
module GuardPosts {
  import opened Wrappers

  const GUARD_POST_MAX_CHARGES: nat := 10
  const GUARD_POST_USE_COOLDOWN: nat := 10000
  const GUARD_POST_RECHARGE_TIME: nat := 60000

  /** The state of one area's post. */
  datatype Post = Post(cooldown: nat, charges: nat)

  function Tick(post: Post, diff: nat, recharge: bool): Post {
    Post(
      if post.cooldown >= diff then post.cooldown - diff else 0,
      if recharge && post.charges < GUARD_POST_MAX_CHARGES then post.charges + 1 else post.charges)
  }

  predicate Ready(post: Post) {
    post.cooldown == 0 && post.charges > 0
  }

  function Used(post: Post): Post
    requires Ready(post)
  {
    Post(GUARD_POST_USE_COOLDOWN, post.charges - 1)
  }

  // ---------- The manager ----------

  class GuardMgr {
    var areaGuardInfo: map<nat, Post>
    var rechargeTimer: nat

    method Update(diff: nat)
      modifies this
      ensures rechargeTimer == if old(rechargeTimer) < diff then GUARD_POST_RECHARGE_TIME else old(rechargeTimer) - diff
      ensures areaGuardInfo.Keys == old(areaGuardInfo).Keys
      ensures forall a :: a in areaGuardInfo ==> areaGuardInfo[a] == Tick(old(areaGuardInfo)[a], diff, old(rechargeTimer) < diff)
    {
      var increaseCharges := false;
      if rechargeTimer < diff {
        increaseCharges := true;
        rechargeTimer := GUARD_POST_RECHARGE_TIME;
      } else {
        rechargeTimer := rechargeTimer - diff;
      }
      var areas := areaGuardInfo.Keys;
      while areas != {}
        invariant areas <= areaGuardInfo.Keys == old(areaGuardInfo).Keys
        invariant rechargeTimer == if increaseCharges then GUARD_POST_RECHARGE_TIME else old(rechargeTimer) - diff
        invariant forall a :: a in areaGuardInfo ==>
          areaGuardInfo[a] == if a in areas then old(areaGuardInfo)[a] else Tick(old(areaGuardInfo)[a], diff, increaseCharges)
      {
        var itr :| itr in areas;
        areas := areas - {itr};
        var post := areaGuardInfo[itr];
        if post.cooldown > 0 {
          if post.cooldown >= diff {
            post := post.(cooldown := post.cooldown - diff);
          } else {
            post := post.(cooldown := 0);
          }
        }
        if increaseCharges && post.charges < GUARD_POST_MAX_CHARGES {
          post := post.(charges := post.charges + 1);
        }
        areaGuardInfo := areaGuardInfo[itr := post];
      }
    }

    /**
     A civilian calls for help: `area` is where it stands, if it and the enemy exist. Says whether
     help was called, and whether an area post gave it.
     */
    method SummonGuard(area: Option<nat>, hardcore: bool) returns (called: bool, post: bool)
      modifies this`areaGuardInfo
      ensures post <==> area.Some? && !hardcore && area.value in old(areaGuardInfo) && Ready(old(areaGuardInfo)[area.value])
      ensures called <==> post || (area.Some? && !hardcore && area.value !in old(areaGuardInfo))
      ensures areaGuardInfo == if post then old(areaGuardInfo)[area.value := Used(old(areaGuardInfo)[area.value])] else old(areaGuardInfo)
    {
      if area.None? {
        return false, false;
      }
      if hardcore {
        return false, false;
      }
      if area.value !in areaGuardInfo {
        return true, false;
      }
      var guardInfo := areaGuardInfo[area.value];
      if guardInfo.cooldown > 0 || guardInfo.charges == 0 {
        return false, false;
      }
      guardInfo := guardInfo.(charges := guardInfo.charges - 1);
      guardInfo := guardInfo.(cooldown := GUARD_POST_USE_COOLDOWN);
      areaGuardInfo := areaGuardInfo[area.value := guardInfo];
      return true, true;
    }
  }

  // ---------- Runs ----------

  /** What can happen to one area's post: time passes, or its guards are called for. */
  datatype Step = Update(diff: nat) | Summon

  /** One area's post and the timer; the time passed, the recharges due, and when guards came. */
  datatype Past = Past(timer: nat, post: Post, elapsed: nat, recharges: nat, calls: seq<nat>)

  function Take(p: Past, s: Step): Past {
    match s
    case Update(diff) =>
      Past(
        if p.timer < diff then GUARD_POST_RECHARGE_TIME else p.timer - diff,
        Tick(p.post, diff, p.timer < diff),
        p.elapsed + diff,
        if p.timer < diff then p.recharges + 1 else p.recharges,
        p.calls)
    case Summon =>
      if Ready(p.post) then p.(post := Used(p.post), calls := p.calls + [p.elapsed]) else p
  }

  function After(timer: nat, post: Post, steps: seq<Step>): Past {
    if steps == [] then Past(timer, post, 0, 0, [])
    else Take(After(timer, post, steps[..|steps| - 1]), steps[|steps| - 1])
  }

  /**
   Charges are spent by calls and made by recharges; recharges after the first are a recharge
   time apart; calls are a cooldown apart.
   */
  predicate Inv(p: Past) {
    && p.post.charges <= GUARD_POST_MAX_CHARGES
    && |p.calls| + p.post.charges <= GUARD_POST_MAX_CHARGES + p.recharges
    && (p.recharges > 0 ==>
          p.timer <= GUARD_POST_RECHARGE_TIME
          && GUARD_POST_RECHARGE_TIME * p.recharges <= p.elapsed + p.timer)
    && (forall i :: 0 <= i < |p.calls| ==> p.calls[i] + GUARD_POST_USE_COOLDOWN <= p.elapsed + p.post.cooldown)
    && (forall i, j :: 0 <= i < j < |p.calls| ==> p.calls[i] + GUARD_POST_USE_COOLDOWN <= p.calls[j])
  }

  lemma TakeKeeps(p: Past, s: Step)
    requires Inv(p)
    ensures Inv(Take(p, s))
  {
  }

  lemma {:induction false} RunKeeps(timer: nat, post: Post, steps: seq<Step>)
    requires post.charges <= GUARD_POST_MAX_CHARGES
    ensures Inv(After(timer, post, steps))
  {
    hide Take;
    if steps != [] {
      RunKeeps(timer, post, steps[..|steps| - 1]);
      TakeKeeps(After(timer, post, steps[..|steps| - 1]), steps[|steps| - 1]);
    }
  }

  /**
   Over any stretch of any run, whatever the timer shows at its start, guards come at most ten
   times, once more, and once for every full minute; they come at least ten seconds apart; and
   the post holds at most ten charges.
   */
  lemma CallsAreLimited(timer: nat, post: Post, steps: seq<Step>)
    requires post.charges <= GUARD_POST_MAX_CHARGES
    ensures var p := After(timer, post, steps);
      && p.post.charges <= 10
      && |p.calls| <= 11 + p.elapsed / 60000
      && forall i, j :: 0 <= i < j < |p.calls| ==> p.calls[i] + 10000 <= p.calls[j]
  {
    RunKeeps(timer, post, steps);
  }

  /** How long the post rests: from its last call, or from what it had to rest at first. */
  predicate Resting(p: Past, cooldown: nat) {
    var until := if p.calls == [] then cooldown else p.calls[|p.calls| - 1] + 10000;
    p.post.cooldown == if p.elapsed < until then until - p.elapsed else 0
  }

  lemma {:induction false} RunRests(timer: nat, post: Post, steps: seq<Step>)
    ensures Resting(After(timer, post, steps), post.cooldown)
  {
    hide After;
    if steps == [] {
      AfterNone(timer, post);
    } else {
      RunRests(timer, post, steps[..|steps| - 1]);
      AfterLast(timer, post, steps);
      var p := After(timer, post, steps[..|steps| - 1]);
      if steps[|steps| - 1].Summon? && Ready(p.post) {
        assert (p.calls + [p.elapsed])[|p.calls|] == p.elapsed;
      }
    }
  }

  lemma AfterNone(timer: nat, post: Post)
    ensures After(timer, post, []) == Past(timer, post, 0, 0, [])
  {
  }

  lemma AfterLast(timer: nat, post: Post, steps: seq<Step>)
    requires steps != []
    ensures After(timer, post, steps) == Take(After(timer, post, steps[..|steps| - 1]), steps[|steps| - 1])
  {
    hide Take;
  }

  /** A call is answered exactly when a charge is left and the ten seconds since the last answer, or the first rest, are over. */
  lemma AnswersExactly(timer: nat, post: Post, steps: seq<Step>)
    ensures var p, t := After(timer, post, steps), Take(After(timer, post, steps), Summon);
      var rested := if p.calls == [] then post.cooldown <= p.elapsed else p.calls[|p.calls| - 1] + 10000 <= p.elapsed;
      if rested && p.post.charges > 0 then t.calls == p.calls + [p.elapsed] && t.post.charges == p.post.charges - 1
      else t == p
  {
    RunRests(timer, post, steps);
  }

  /** Whether charges are made, and spent only by answers. */
  predicate Charging(p: Past, timer: nat, charges: nat) {
    && (p.recharges == 0 ==> p.elapsed + p.timer == timer && p.post.charges + |p.calls| == charges)
    && (p.recharges > 0 ==> p.post.charges + |p.calls| >= if charges < 10 then charges + 1 else 10)
  }

  lemma {:induction false} RunCharges(timer: nat, post: Post, steps: seq<Step>)
    requires post.charges <= GUARD_POST_MAX_CHARGES
    ensures Charging(After(timer, post, steps), timer, post.charges)
  {
    hide After;
    if steps == [] {
      AfterNone(timer, post);
    } else {
      RunCharges(timer, post, steps[..|steps| - 1]);
      AfterLast(timer, post, steps);
    }
  }

  /** Once the time the timer shows has passed a post that nobody called has a charge, and one more than it had, up to ten. */
  lemma ChargedAgain(timer: nat, post: Post, steps: seq<Step>)
    requires post.charges <= GUARD_POST_MAX_CHARGES
    requires After(timer, post, steps).elapsed > timer && After(timer, post, steps).calls == []
    ensures After(timer, post, steps).post.charges > if post.charges < 10 then post.charges else 9
  {
    RunCharges(timer, post, steps);
    RunKeeps(timer, post, steps);
  }
}
