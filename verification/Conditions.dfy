/**
 Conditions of the world database: entries that test a target, a source and a map, and entries
 that combine others by number. What they mean, and how loading makes them safe to evaluate.
 */
module Conditions {
  import opened Wrappers
  import opened Bytes
  import opened Sequences

  datatype WorldObject = WorldObject(guid: nat, isGameObject: bool, isUnit: bool, isCreature: bool, isPlayer: bool)

  datatype Params = Params(target: Option<WorldObject>, mapId: Option<nat>, source: Option<WorldObject>)

  /** Condition types; a test is any type above zero. */
  datatype Kind = Not | Or | And | Empty | Test(number: nat)

  datatype Entry = Entry(
    kind: Kind,
    value1: int,
    value2: int,
    value3: int,
    value4: int,
    reverse: bool,
    swap: bool)

  type Table = map<nat, Entry>

  /** How a test on acceptable parameters turns out: left open. */
  type Tests = (Entry, Params) -> bool

  /** A signed value as an entry number. */
  function Number(value: int): nat {
    value % TWO_32
  }

  // ---------- Parameters ----------

  datatype Requirement =
    | NoneNeeded
    | TargetWorldObject | TargetGameObject | TargetUnit | TargetCreature | TargetPlayer
    | SourceWorldObject | SourceGameObject | SourceUnit | SourceCreature | SourcePlayer
    | AnyWorldObject | MapOrWorldObject
    | BothWorldObjects | BothGameObjects | BothUnits | BothPlayers

  /** What each test needs, from number 1 on. */
  const REQUIREMENTS: seq<Requirement> := FIRST_REQUIREMENTS + OTHER_REQUIREMENTS

  const FIRST_REQUIREMENTS: seq<Requirement> := [
    TargetUnit, TargetPlayer, TargetPlayer, AnyWorldObject, TargetPlayer,
    TargetUnit, TargetPlayer, TargetPlayer, TargetPlayer, TargetPlayer,
    NoneNeeded, NoneNeeded, SourceUnit, TargetPlayer, TargetUnit,
    SourceWorldObject, TargetPlayer, MapOrWorldObject, TargetPlayer, TargetWorldObject,
    TargetWorldObject, TargetPlayer, TargetPlayer, NoneNeeded, NoneNeeded,
    NoneNeeded, TargetWorldObject, TargetWorldObject, TargetPlayer, TargetPlayer]

  /** From number 31 on. */
  const OTHER_REQUIREMENTS: seq<Requirement> := [
    SourceWorldObject, SourceUnit, MapOrWorldObject, MapOrWorldObject, MapOrWorldObject,
    MapOrWorldObject, BothWorldObjects, BothWorldObjects, TargetWorldObject, TargetUnit,
    TargetUnit, TargetUnit, TargetUnit, BothWorldObjects, TargetPlayer,
    TargetUnit, MapOrWorldObject, TargetGameObject, TargetGameObject, MapOrWorldObject,
    TargetPlayer, SourceWorldObject, NoneNeeded, TargetWorldObject, TargetGameObject,
    TargetWorldObject, SourceCreature, SourceCreature, MapOrWorldObject]

  function RequirementOf(kind: Kind): Requirement {
    if kind.Test? && 1 <= kind.number <= |REQUIREMENTS| then REQUIREMENTS[kind.number - 1] else NoneNeeded
  }

  predicate CheckParamRequirements(kind: Kind, p: Params) {
    var target, source := p.target, p.source;
    match RequirementOf(kind)
    case NoneNeeded => true
    case TargetWorldObject => target.Some?
    case TargetGameObject => target.Some? && target.value.isGameObject
    case TargetUnit => target.Some? && target.value.isUnit
    case TargetCreature => target.Some? && target.value.isCreature
    case TargetPlayer => target.Some? && target.value.isPlayer
    case SourceWorldObject => source.Some?
    case SourceGameObject => source.Some? && source.value.isGameObject
    case SourceUnit => source.Some? && source.value.isUnit
    case SourceCreature => source.Some? && source.value.isCreature
    case SourcePlayer => source.Some? && source.value.isPlayer
    case AnyWorldObject => source.Some? || target.Some?
    case MapOrWorldObject => p.mapId.Some? || source.Some? || target.Some?
    case BothWorldObjects => source.Some? && target.Some?
    case BothGameObjects => source.Some? && source.value.isGameObject && target.Some? && target.value.isGameObject
    case BothUnits => source.Some? && source.value.isUnit && target.Some? && target.value.isUnit
    case BothPlayers => source.Some? && source.value.isPlayer && target.Some? && target.value.isPlayer
  }

  predicate TakesPlayer(n: nat) {
    n in {2, 3, 5, 7, 8, 9, 10, 14, 17, 19, 22, 23, 29, 30, 45, 51}
  }

  predicate TakesUnit(n: nat) {
    n in {1, 6, 15, 40, 41, 42, 43, 46}
  }

  predicate TakesGameObject(n: nat) {
    n in {48, 49, 55}
  }

  predicate TakesObject(n: nat) {
    n in {20, 21, 27, 28, 39, 54, 56}
  }

  predicate TakesBoth(n: nat) {
    n in {37, 38, 44}
  }

  predicate TakesSource(n: nat) {
    n in {16, 31, 52}
  }

  predicate TakesSourceUnit(n: nat) {
    n in {13, 32}
  }

  predicate TakesSourceCreature(n: nat) {
    n in {57, 58}
  }

  predicate TakesPlace(n: nat) {
    n in {18, 33, 34, 35, 36, 47, 50, 59}
  }

  /** Which tests need which parameters, by their numbers; number 4 needs a source or a target, and the others nothing. */
  lemma NeededExactly(n: nat, p: Params)
    ensures CheckParamRequirements(Test(n), p) <==>
      && (TakesPlayer(n) ==> p.target.Some? && p.target.value.isPlayer)
      && (TakesUnit(n) ==> p.target.Some? && p.target.value.isUnit)
      && (TakesGameObject(n) ==> p.target.Some? && p.target.value.isGameObject)
      && (TakesObject(n) ==> p.target.Some?)
      && (TakesSource(n) ==> p.source.Some?)
      && (TakesSourceUnit(n) ==> p.source.Some? && p.source.value.isUnit)
      && (TakesSourceCreature(n) ==> p.source.Some? && p.source.value.isCreature)
      && (TakesBoth(n) ==> p.source.Some? && p.target.Some?)
      && (TakesPlace(n) ==> p.mapId.Some? || p.source.Some? || p.target.Some?)
      && (n == 4 ==> p.source.Some? || p.target.Some?)
  {
    RequirementIs(n);
    EveryTest(n);
    hide RequirementOf;
  }

  predicate TakesNothing(n: nat) {
    n in {0, 11, 12, 24, 25, 26, 53} || n > 59
  }

  lemma RequirementIs(n: nat)
    ensures TakesPlayer(n) ==> RequirementOf(Test(n)) == TargetPlayer
    ensures TakesUnit(n) ==> RequirementOf(Test(n)) == TargetUnit
    ensures TakesGameObject(n) ==> RequirementOf(Test(n)) == TargetGameObject
    ensures TakesObject(n) ==> RequirementOf(Test(n)) == TargetWorldObject
    ensures TakesSource(n) ==> RequirementOf(Test(n)) == SourceWorldObject
    ensures TakesSourceUnit(n) ==> RequirementOf(Test(n)) == SourceUnit
    ensures TakesSourceCreature(n) ==> RequirementOf(Test(n)) == SourceCreature
    ensures TakesBoth(n) ==> RequirementOf(Test(n)) == BothWorldObjects
    ensures TakesPlace(n) ==> RequirementOf(Test(n)) == MapOrWorldObject
    ensures TakesNothing(n) ==> RequirementOf(Test(n)) == NoneNeeded
    ensures n == 4 ==> RequirementOf(Test(n)) == AnyWorldObject
  {
    hide RequirementOf, TakesPlayer, TakesUnit, TakesGameObject, TakesObject, TakesSource, TakesSourceUnit, TakesSourceCreature, TakesBoth, TakesPlace, TakesNothing;
    PlayerTests(n);
    TargetTests(n);
    SourceTests(n);
    EitherTests(n);
    FreeTests(n);
  }

  lemma PlayerTests(n: nat)
    ensures TakesPlayer(n) ==> RequirementOf(Test(n)) == TargetPlayer
  {
  }

  lemma TargetTests(n: nat)
    ensures TakesUnit(n) ==> RequirementOf(Test(n)) == TargetUnit
    ensures TakesGameObject(n) ==> RequirementOf(Test(n)) == TargetGameObject
    ensures TakesObject(n) ==> RequirementOf(Test(n)) == TargetWorldObject
  {
  }

  lemma SourceTests(n: nat)
    ensures TakesSource(n) ==> RequirementOf(Test(n)) == SourceWorldObject
    ensures TakesSourceUnit(n) ==> RequirementOf(Test(n)) == SourceUnit
    ensures TakesSourceCreature(n) ==> RequirementOf(Test(n)) == SourceCreature
  {
  }

  lemma EitherTests(n: nat)
    ensures TakesBoth(n) ==> RequirementOf(Test(n)) == BothWorldObjects
    ensures TakesPlace(n) ==> RequirementOf(Test(n)) == MapOrWorldObject
    ensures n == 4 ==> RequirementOf(Test(n)) == AnyWorldObject
  {
  }

  lemma FreeTests(n: nat)
    ensures TakesNothing(n) ==> RequirementOf(Test(n)) == NoneNeeded
  {
  }

  lemma EveryTest(n: nat)
    ensures || TakesPlayer(n) || TakesUnit(n) || TakesGameObject(n) || TakesObject(n) || TakesSource(n)
            || TakesSourceUnit(n) || TakesSourceCreature(n) || TakesBoth(n) || TakesPlace(n) || n == 4 || TakesNothing(n)
  {
  }

  /** Combinations and the empty condition need nothing of their own. */
  lemma CombinationsNeedNothing(kind: Kind, p: Params)
    requires !kind.Test?
    ensures CheckParamRequirements(kind, p)
  {
  }

  function Swapped(p: Params): Params {
    Params(p.source, p.mapId, p.target)
  }

  // ---------- Evaluation ----------

  /** The third and fourth operands, which are optional. */
  function Extra(e: Entry): seq<nat> {
    if Combines(e.kind) then
      (if e.value3 != 0 then [Number(e.value3)] else []) + (if e.value4 != 0 then [Number(e.value4)] else [])
    else []
  }

  function Main(e: Entry): seq<nat> {
    match e.kind
    case Not => [Number(e.value1)]
    case Or => [Number(e.value1), Number(e.value2)]
    case And => [Number(e.value1), Number(e.value2)]
    case _ => []
  }

  /** An operand exists and has a lower number. */
  predicate Lower(table: Table, id: nat, value: int) {
    Number(value) < id && Number(value) in table
  }

  predicate Combines(kind: Kind) {
    kind.Not? || kind.Or? || kind.And?
  }

  /** Every operand an evaluation may look up exists and has a lower number. */
  predicate Sound(table: Table, id: nat)
    requires id in table
  {
    var e := table[id];
    Combines(e.kind) ==>
      && Lower(table, id, e.value1)
      && (!e.kind.Not? ==> Lower(table, id, e.value2))
      && (e.value3 != 0 ==> Lower(table, id, e.value3))
      && (e.value4 != 0 ==> Lower(table, id, e.value4))
  }

  predicate Closed(table: Table) {
    forall id :: id in table ==> Sound(table, id)
  }

  function OrElse(a: Option<bool>, b: Option<bool>): Option<bool> {
    if a == Some(false) then b else a
  }

  function AndThen(a: Option<bool>, b: Option<bool>): Option<bool> {
    if a == Some(true) then b else a
  }

  /** Evaluation cut off after `fuel` calls inside each other, in any table: no answer if that is too few. */
  function MeetsWithin(table: Table, id: nat, p: Params, tests: Tests, fuel: nat): Option<bool>
    decreases fuel, 2
  {
    if fuel == 0 || id !in table then None
    else
      var e := table[id];
      var q := if e.swap then Swapped(p) else p;
      if !CheckParamRequirements(e.kind, q) then Some(false)
      else
        var result := EvaluateWithin(table, e, q, tests, fuel - 1);
        if result.None? then None else Some(if e.reverse then !result.value else result.value)
  }

  function EvaluateWithin(table: Table, e: Entry, p: Params, tests: Tests, fuel: nat): Option<bool>
    decreases fuel, 4
  {
    match e.kind
    case Not =>
      var first := MeetsWithin(table, Number(e.value1), p, tests, fuel);
      OrElse(OperandWithin(table, e.value3, false, p, tests, fuel),
        OrElse(OperandWithin(table, e.value4, false, p, tests, fuel),
          if first.None? then None else Some(!first.value)))
    case Or =>
      OrElse(OperandWithin(table, e.value3, false, p, tests, fuel),
        OrElse(OperandWithin(table, e.value4, false, p, tests, fuel),
          OrElse(MeetsWithin(table, Number(e.value1), p, tests, fuel), MeetsWithin(table, Number(e.value2), p, tests, fuel))))
    case And =>
      AndThen(OperandWithin(table, e.value3, true, p, tests, fuel),
        AndThen(OperandWithin(table, e.value4, true, p, tests, fuel),
          AndThen(MeetsWithin(table, Number(e.value1), p, tests, fuel), MeetsWithin(table, Number(e.value2), p, tests, fuel))))
    case Empty => Some(true)
    case Test(_) => Some(tests(e, p))
  }

  /** An optional operand; `missing` is the result without one. */
  function OperandWithin(table: Table, value: int, missing: bool, p: Params, tests: Tests, fuel: nat): Option<bool>
    decreases fuel, 3
  {
    if value == 0 then Some(missing) else MeetsWithin(table, Number(value), p, tests, fuel)
  }

  /** A test is met if it has what it needs and turns out as its reverse flag wants; a swap exchanges target and source, and nothing else. */
  lemma TestAnswers(table: Table, id: nat, p: Params, tests: Tests, fuel: nat)
    requires fuel > 0 && id in table && table[id].kind.Test?
    ensures var e := table[id];
      var q := if e.swap then Params(p.source, p.mapId, p.target) else p;
      MeetsWithin(table, id, p, tests, fuel) == Some(CheckParamRequirements(e.kind, q) && (tests(e, q) != e.reverse))
  {
  }

  /**
   A combination whose operands are answered, the optional third and fourth only where they are
   given: a conjunction is met if all are, a disjunction if one is, a negation if the first is not
   or an optional one is; its reverse flag turns that round.
   */
  lemma CombinationAnswers(table: Table, id: nat, p: Params, tests: Tests, fuel: nat, a: bool, b: bool, c: bool, d: bool)
    requires id in table && Combines(table[id].kind)
    requires var e := table[id];
      var q := if e.swap then Params(p.source, p.mapId, p.target) else p;
      && MeetsWithin(table, e.value1 % 0x1_0000_0000, q, tests, fuel) == Some(a)
      && (!e.kind.Not? ==> MeetsWithin(table, e.value2 % 0x1_0000_0000, q, tests, fuel) == Some(b))
      && (e.value3 != 0 ==> MeetsWithin(table, e.value3 % 0x1_0000_0000, q, tests, fuel) == Some(c))
      && (e.value4 != 0 ==> MeetsWithin(table, e.value4 % 0x1_0000_0000, q, tests, fuel) == Some(d))
    ensures var e := table[id];
      var met :=
        if e.kind.And? then a && b && (e.value3 != 0 ==> c) && (e.value4 != 0 ==> d)
        else (if e.kind.Or? then a || b else !a) || (e.value3 != 0 && c) || (e.value4 != 0 && d);
      MeetsWithin(table, id, p, tests, fuel + 1) == Some(met != e.reverse)
  {
    var e := table[id];
    var q := if e.swap then Swapped(p) else p;
    CombinationsNeedNothing(e.kind, q);
    hide CheckParamRequirements;
    var c', d' := OperandWithin(table, e.value3, e.kind.And?, q, tests, fuel), OperandWithin(table, e.value4, e.kind.And?, q, tests, fuel);
    assert c' == Some(if e.value3 == 0 then e.kind.And? else c) && d' == Some(if e.value4 == 0 then e.kind.And? else d);
    var result := EvaluateWithin(table, e, q, tests, fuel);
    hide MeetsWithin, OperandWithin;
    assert result == Some(
      if e.kind.And? then a && b && (e.value3 != 0 ==> c) && (e.value4 != 0 ==> d)
      else (if e.kind.Or? then a || b else !a) || (e.value3 != 0 && c) || (e.value4 != 0 && d));
    MeetsFrom(table, id, p, tests, fuel);
  }

  lemma MeetsFrom(table: Table, id: nat, p: Params, tests: Tests, fuel: nat)
    requires id in table
    ensures var e := table[id];
      var q := if e.swap then Swapped(p) else p;
      var result := EvaluateWithin(table, e, q, tests, fuel);
      CheckParamRequirements(e.kind, q) && result.Some? ==> MeetsWithin(table, id, p, tests, fuel + 1) == Some(result.value != e.reverse)
  {
    hide EvaluateWithin, CheckParamRequirements;
  }

  /** An answer stays the same however much more is allowed. */
  lemma {:induction false} MoreFuel(table: Table, id: nat, p: Params, tests: Tests, fuel: nat, more: nat)
    requires MeetsWithin(table, id, p, tests, fuel).Some? && fuel <= more
    ensures MeetsWithin(table, id, p, tests, more) == MeetsWithin(table, id, p, tests, fuel)
    decreases fuel
  {
    hide CheckParamRequirements, Number;
    var e := table[id];
    var q := if e.swap then Swapped(p) else p;
    var f, m := fuel - 1, more - 1;
    forall k: nat {:trigger MeetsWithin(table, k, q, tests, f)} | MeetsWithin(table, k, q, tests, f).Some?
      ensures MeetsWithin(table, k, q, tests, m) == MeetsWithin(table, k, q, tests, f) {
      MoreFuel(table, k, q, tests, f, m);
    }
    EvaluateMore(table, e, q, tests, f, m);
  }

  lemma EvaluateMore(table: Table, e: Entry, p: Params, tests: Tests, fuel: nat, more: nat)
    requires forall k: nat {:trigger MeetsWithin(table, k, p, tests, fuel)} :: MeetsWithin(table, k, p, tests, fuel).Some? ==>
      MeetsWithin(table, k, p, tests, more) == MeetsWithin(table, k, p, tests, fuel)
    ensures EvaluateWithin(table, e, p, tests, fuel).Some? ==>
      EvaluateWithin(table, e, p, tests, more) == EvaluateWithin(table, e, p, tests, fuel)
  {
    hide MeetsWithin, Number;
    var all := e.kind.And?;
    assert forall value: int :: OperandWithin(table, value, all, p, tests, fuel).Some? ==>
      OperandWithin(table, value, all, p, tests, more) == OperandWithin(table, value, all, p, tests, fuel);
    assert forall value: int :: MeetsWithin(table, Number(value), p, tests, fuel).Some? ==>
      MeetsWithin(table, Number(value), p, tests, more) == MeetsWithin(table, Number(value), p, tests, fuel);
  }

  // ---------- What an entry denotes ----------

  /** Boolean trees over tests; every node may swap the targets below it and reverse its result. */
  datatype Tree =
    | Leaf(id: nat, entry: Entry)
    | Node(kind: Kind, extra: seq<Tree>, main: seq<Tree>, swap: bool, reverse: bool)

  /** All operands exist, and theirs do, down to entries without any, within so many levels. */
  predicate Grounded(table: Table, id: nat, depth: nat)
    decreases depth
  {
    && depth > 0 && id in table
    && (forall i :: 0 <= i < |Extra(table[id])| ==> Grounded(table, Extra(table[id])[i], depth - 1))
    && (forall i :: 0 <= i < |Main(table[id])| ==> Grounded(table, Main(table[id])[i], depth - 1))
  }

  function TreeOf(table: Table, id: nat, depth: nat): Tree
    requires Grounded(table, id, depth)
    decreases depth
  {
    var e := table[id];
    var extra, main := Extra(e), Main(e);
    if e.kind.Test? then Leaf(id, e)
    else
      Node(e.kind,
        seq(|extra|, i requires 0 <= i < |extra| => TreeOf(table, extra[i], depth - 1)),
        seq(|main|, i requires 0 <= i < |main| => TreeOf(table, main[i], depth - 1)),
        e.swap, e.reverse)
  }

  /** The value of a tree when the tests in `off` count as failed, whatever the parameters. */
  predicate Value(t: Tree, off: set<nat>, p: Params, tests: Tests)
    decreases t
  {
    match t
    case Leaf(id, e) =>
      var q := if e.swap then Swapped(p) else p;
      if id in off then e.reverse
      else CheckParamRequirements(e.kind, q) && (tests(e, q) != e.reverse)
    case Node(kind, extra, main, swap, reverse) =>
      var q := if swap then Swapped(p) else p;
      var result :=
        if kind.And? then
          && (forall i :: 0 <= i < |extra| ==> Value(extra[i], off, q, tests))
          && (forall i :: 0 <= i < |main| ==> Value(main[i], off, q, tests))
        else
          || (exists i :: 0 <= i < |extra| && Value(extra[i], off, q, tests))
          || (if kind.Or? then exists i :: 0 <= i < |main| && Value(main[i], off, q, tests)
              else forall i :: 0 <= i < |main| ==> !Value(main[i], off, q, tests));
      result != reverse
  }

  /** Evaluation by number comes to the value of the tree the entry denotes. */
  lemma {:induction false} MeetsIsValue(table: Table, id: nat, p: Params, tests: Tests, depth: nat)
    requires Grounded(table, id, depth)
    ensures MeetsWithin(table, id, p, tests, depth) == Some(Value(TreeOf(table, id, depth), {}, p, tests))
    decreases depth
  {
    hide CheckParamRequirements, Number, EvaluateWithin, Extra, Main, MeetsWithin, TreeOf;
    var e := table[id];
    var q := if e.swap then Swapped(p) else p;
    if Combines(e.kind) {
      var extra, main, t := Extra(e), Main(e), TreeOf(table, id, depth);
      TreeShape(table, id, depth);
      forall i | 0 <= i < |extra|
        ensures MeetsWithin(table, extra[i], q, tests, depth - 1).Some?
        ensures Value(t.extra[i], {}, q, tests) <==> Yes(table, extra[i], q, tests, depth - 1) {
        MeetsIsValue(table, extra[i], q, tests, depth - 1);
      }
      forall i | 0 <= i < |main|
        ensures MeetsWithin(table, main[i], q, tests, depth - 1).Some?
        ensures Value(t.main[i], {}, q, tests) <==> Yes(table, main[i], q, tests, depth - 1) {
        MeetsIsValue(table, main[i], q, tests, depth - 1);
      }
      hide Grounded, Yes;
      EvaluateIs(table, e, q, tests, depth - 1);
      MeetsNode(table, id, p, tests, depth);
    } else {
      LeafIsValue(table, id, p, tests, depth);
    }
  }

  /** What an entry that is no test makes of its evaluation. */
  lemma MeetsNode(table: Table, id: nat, p: Params, tests: Tests, depth: nat)
    requires depth > 0 && id in table && !table[id].kind.Test?
    ensures var q := if table[id].swap then Swapped(p) else p;
      var r := EvaluateWithin(table, table[id], q, tests, depth - 1);
      r.Some? ==> MeetsWithin(table, id, p, tests, depth) == Some(r.value != table[id].reverse)
  {
    hide CheckParamRequirements, EvaluateWithin;
    NothingNeeded(table[id].kind, if table[id].swap then Swapped(p) else p);
  }

  lemma LeafIsValue(table: Table, id: nat, p: Params, tests: Tests, depth: nat)
    requires Grounded(table, id, depth) && !Combines(table[id].kind)
    ensures MeetsWithin(table, id, p, tests, depth) == Some(Value(TreeOf(table, id, depth), {}, p, tests))
  {
    hide CheckParamRequirements, Number;
    var e := table[id];
    var q := if e.swap then Swapped(p) else p;
    NothingNeeded(e.kind, q);
    assert Extra(e) == [] && Main(e) == [];
  }

  lemma TreeShape(table: Table, id: nat, depth: nat)
    requires Grounded(table, id, depth) && Combines(table[id].kind)
    ensures var e, t := table[id], TreeOf(table, id, depth);
      && t.Node? && t.kind == e.kind && t.swap == e.swap && t.reverse == e.reverse
      && |t.extra| == |Extra(e)| && |t.main| == |Main(e)|
      && (forall i :: 0 <= i < |Extra(e)| ==> Grounded(table, Extra(e)[i], depth - 1) && t.extra[i] == TreeOf(table, Extra(e)[i], depth - 1))
      && (forall i :: 0 <= i < |Main(e)| ==> Grounded(table, Main(e)[i], depth - 1) && t.main[i] == TreeOf(table, Main(e)[i], depth - 1))
  {
    hide Extra, Main;
  }

  lemma NothingNeeded(kind: Kind, p: Params)
    ensures kind.Test? || CheckParamRequirements(kind, p)
  {
  }

  predicate Yes(table: Table, id: nat, p: Params, tests: Tests, fuel: nat) {
    MeetsWithin(table, id, p, tests, fuel) == Some(true)
  }

  /** The order in which operands are tried does not matter. */
  lemma EvaluateIs(table: Table, e: Entry, p: Params, tests: Tests, fuel: nat)
    requires Combines(e.kind)
    requires forall i :: 0 <= i < |Extra(e)| ==> MeetsWithin(table, Extra(e)[i], p, tests, fuel).Some?
    requires forall i :: 0 <= i < |Main(e)| ==> MeetsWithin(table, Main(e)[i], p, tests, fuel).Some?
    ensures var extra, main := Extra(e), Main(e);
      EvaluateWithin(table, e, p, tests, fuel) == Some(
        if e.kind.And? then
          && (forall i :: 0 <= i < |extra| ==> Yes(table, extra[i], p, tests, fuel))
          && (forall i :: 0 <= i < |main| ==> Yes(table, main[i], p, tests, fuel))
        else
          || (exists i :: 0 <= i < |extra| && Yes(table, extra[i], p, tests, fuel))
          || (if e.kind.Or? then exists i :: 0 <= i < |main| && Yes(table, main[i], p, tests, fuel)
              else forall i :: 0 <= i < |main| ==> !Yes(table, main[i], p, tests, fuel)))
  {
    hide MeetsWithin, Number, Extra, Main, Yes;
    ExtraIs(table, e, p, tests, fuel);
    MainIs(table, e, p, tests, fuel);
    var o3, o4 := OperandWithin(table, e.value3, e.kind.And?, p, tests, fuel), OperandWithin(table, e.value4, e.kind.And?, p, tests, fuel);
    var m1, m2 := MeetsWithin(table, Number(e.value1), p, tests, fuel), MeetsWithin(table, Number(e.value2), p, tests, fuel);
    if e.kind.And? {
      assert EvaluateWithin(table, e, p, tests, fuel) == Some(o3.value && o4.value && m1.value && m2.value);
    } else if e.kind.Or? {
      assert EvaluateWithin(table, e, p, tests, fuel) == Some(o3.value || o4.value || m1.value || m2.value);
    } else {
      assert EvaluateWithin(table, e, p, tests, fuel) == Some(o3.value || o4.value || !m1.value);
    }
  }

  /** The first operand, and the second of those that have one. */
  lemma MainIs(table: Table, e: Entry, p: Params, tests: Tests, fuel: nat)
    requires Combines(e.kind) && forall i :: 0 <= i < |Main(e)| ==> MeetsWithin(table, Main(e)[i], p, tests, fuel).Some?
    ensures var main := Main(e);
      var first, second := MeetsWithin(table, Number(e.value1), p, tests, fuel), MeetsWithin(table, Number(e.value2), p, tests, fuel);
      && first.Some? && (!e.kind.Not? ==> second.Some?)
      && (e.kind.And? ==> (first.value && second.value <==> forall i :: 0 <= i < |main| ==> Yes(table, main[i], p, tests, fuel)))
      && (e.kind.Or? ==> (first.value || second.value <==> exists i :: 0 <= i < |main| && Yes(table, main[i], p, tests, fuel)))
      && (e.kind.Not? ==> (!first.value <==> forall i :: 0 <= i < |main| ==> !Yes(table, main[i], p, tests, fuel)))
  {
    hide MeetsWithin, Number;
    var main := Main(e);
    assert main[0] == Number(e.value1) && (!e.kind.Not? ==> main[1] == Number(e.value2));
    assert Yes(table, main[0], p, tests, fuel) <==> MeetsWithin(table, main[0], p, tests, fuel).value;
    if !e.kind.Not? {
      assert Yes(table, main[1], p, tests, fuel) <==> MeetsWithin(table, main[1], p, tests, fuel).value;
    }
  }

  /** The optional operands, one of which may be missing or both. */
  lemma ExtraIs(table: Table, e: Entry, p: Params, tests: Tests, fuel: nat)
    requires Combines(e.kind) && forall i :: 0 <= i < |Extra(e)| ==> MeetsWithin(table, Extra(e)[i], p, tests, fuel).Some?
    ensures var extra := Extra(e);
      var third, fourth := OperandWithin(table, e.value3, e.kind.And?, p, tests, fuel), OperandWithin(table, e.value4, e.kind.And?, p, tests, fuel);
      && third.Some? && fourth.Some?
      && (e.kind.And? ==> (third.value && fourth.value <==> forall i :: 0 <= i < |extra| ==> Yes(table, extra[i], p, tests, fuel)))
      && (!e.kind.And? ==> (third.value || fourth.value <==> exists i :: 0 <= i < |extra| && Yes(table, extra[i], p, tests, fuel)))
  {
    hide MeetsWithin, Number;
    var extra := Extra(e);
    if e.value3 != 0 {
      assert extra[0] == Number(e.value3) && (Yes(table, extra[0], p, tests, fuel) <==> OperandWithin(table, e.value3, e.kind.And?, p, tests, fuel) == Some(true));
      if e.value4 != 0 {
        assert extra[1] == Number(e.value4) && (Yes(table, extra[1], p, tests, fuel) <==> OperandWithin(table, e.value4, e.kind.And?, p, tests, fuel) == Some(true));
      }
    } else if e.value4 != 0 {
      assert extra[0] == Number(e.value4) && (Yes(table, extra[0], p, tests, fuel) <==> OperandWithin(table, e.value4, e.kind.And?, p, tests, fuel) == Some(true));
    }
  }

  // ---------- Which entries can be evaluated ----------

  /** In a closed table no entry is deeper than its number, and one. */
  lemma {:induction false} ClosedIsGrounded(table: Table, id: nat)
    requires Closed(table) && id in table
    ensures Grounded(table, id, id + 1)
    decreases id
  {
    hide Number;
    var e := table[id];
    assert Sound(table, id);
    forall i | 0 <= i < |Extra(e)| ensures Grounded(table, Extra(e)[i], id) {
      ClosedIsGrounded(table, Extra(e)[i]);
      Deeper(table, Extra(e)[i], Extra(e)[i] + 1, id);
    }
    forall i | 0 <= i < |Main(e)| ensures Grounded(table, Main(e)[i], id) {
      ClosedIsGrounded(table, Main(e)[i]);
      Deeper(table, Main(e)[i], Main(e)[i] + 1, id);
    }
  }

  lemma {:induction false} Deeper(table: Table, id: nat, depth: nat, more: nat)
    requires Grounded(table, id, depth) && depth <= more
    ensures Grounded(table, id, more)
    decreases depth
  {
    var e := table[id];
    forall i | 0 <= i < |Extra(e)| ensures Grounded(table, Extra(e)[i], more - 1) {
      Deeper(table, Extra(e)[i], depth - 1, more - 1);
    }
    forall i | 0 <= i < |Main(e)| ensures Grounded(table, Main(e)[i], more - 1) {
      Deeper(table, Main(e)[i], depth - 1, more - 1);
    }
  }

  /** One entry is an operand of the other. */
  predicate IsOperand(table: Table, id: nat, operand: nat) {
    id in table && (operand in Extra(table[id]) || operand in Main(table[id]))
  }

  /** A way down from operand to operand. */
  predicate Way(table: Table, way: seq<nat>) {
    forall i :: 0 <= i < |way| - 1 ==> IsOperand(table, way[i], way[i + 1])
  }

  /** Every way down from the entry stays in the table and never comes back to where it was. */
  ghost predicate NoWayRound(table: Table, id: nat) {
    forall way {:trigger Way(table, way)} :: Way(table, way) && way != [] && way[0] == id ==>
      Distinct(way) && forall k :: k in way ==> k in table
  }

  /** An entry can be evaluated all the way down just when its operands all exist and do not go in a circle. */
  lemma GroundedExactly(table: Table, id: nat)
    ensures (exists depth: nat :: Grounded(table, id, depth)) <==> NoWayRound(table, id)
  {
    if depth: nat :| Grounded(table, id, depth) {
      forall way | Way(table, way) && way != [] && way[0] == id ensures Distinct(way) && forall k :: k in way ==> k in table {
        GroundedWays(table, way, depth);
      }
    }
    if NoWayRound(table, id) {
      assert [id][0] == id && Way(table, [id]);
      WaysGround(table, [id], |table.Keys|);
      assert Grounded(table, id, |table.Keys|);
    }
  }

  lemma {:induction false} GroundedAlong(table: Table, way: seq<nat>, depth: nat, i: nat)
    requires Way(table, way) && i < |way| && Grounded(table, way[0], depth)
    ensures i < depth && Grounded(table, way[i], depth - i)
    decreases i
  {
    if i > 0 {
      GroundedAlong(table, way, depth, i - 1);
      assert IsOperand(table, way[i - 1], way[i]);
    }
  }

  lemma GroundedWays(table: Table, way: seq<nat>, depth: nat)
    requires Way(table, way) && way != [] && Grounded(table, way[0], depth)
    ensures Distinct(way) && forall k :: k in way ==> k in table
  {
    forall i | 0 <= i < |way| ensures way[i] in table {
      GroundedAlong(table, way, depth, i);
    }
    forall i, j | 0 <= i < j < |way| ensures way[i] != way[j] {
      GroundedAlong(table, way, depth, i);
      if way[i] == way[j] {
        PartOfWay(table, way, i, j);
        RoundIsEndless(table, way[i..j + 1], depth - i);
      }
    }
  }

  lemma PartOfWay(table: Table, way: seq<nat>, i: nat, j: nat)
    requires Way(table, way) && i < j < |way|
    ensures Way(table, way[i..j + 1])
  {
    hide IsOperand;
    var part := way[i..j + 1];
    forall k | 0 <= k < |part| - 1 ensures IsOperand(table, part[k], part[k + 1]) {
      assert part[k] == way[i + k] && part[k + 1] == way[(i + k) + 1];
    }
  }

  /** An entry that a way leads back to is grounded at no depth. */
  lemma {:induction false} RoundIsEndless(table: Table, round: seq<nat>, depth: nat)
    requires Way(table, round) && |round| > 1 && round[0] == round[|round| - 1]
    ensures !Grounded(table, round[0], depth)
    decreases depth
  {
    if Grounded(table, round[0], depth) {
      GroundedAlong(table, round, depth, |round| - 1);
      RoundIsEndless(table, round, depth - (|round| - 1));
    }
  }

  lemma {:induction false} WaysGround(table: Table, way: seq<nat>, size: nat)
    requires Way(table, way) && way != [] && NoWayRound(table, way[0]) && size == |table.Keys|
    ensures |way| <= size && Grounded(table, way[|way| - 1], size - |way| + 1)
    decreases size - |way|
  {
    var id := way[|way| - 1];
    DistinctIn(way, table.Keys);
    forall k | IsOperand(table, id, k) ensures |way| < size && Grounded(table, k, size - |way|) {
      var longer := way + [k];
      assert forall i :: 0 <= i < |way| ==> longer[i] == way[i];
      assert Way(table, longer);
      DistinctIn(longer, table.Keys);
      WaysGround(table, longer, size);
    }
    assert id in way && id in table;
    var e, depth := table[id], size - |way|;
    forall i | 0 <= i < |Extra(e)| ensures Grounded(table, Extra(e)[i], depth) {
      assert IsOperand(table, id, Extra(e)[i]);
    }
    forall i | 0 <= i < |Main(e)| ensures Grounded(table, Main(e)[i], depth) {
      assert IsOperand(table, id, Main(e)[i]);
    }
    assert Grounded(table, id, depth + 1);
  }

  lemma {:induction false} DistinctIn(s: seq<nat>, keys: set<nat>)
    requires Distinct(s) && forall k :: k in s ==> k in keys
    ensures |s| <= |keys|
  {
    if s != [] {
      var last := s[|s| - 1];
      DistinctIn(s[..|s| - 1], keys - {last});
    }
  }
}
