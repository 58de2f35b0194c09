/**
 Loading the conditions: entries that cannot be evaluated are erased, tests about removed
 content are switched off, and what is left evaluates safely and means what it did.
 */
module ConditionLoading {
  import opened Wrappers
  import opened Conditions

  /** How a test's own values are found: they may name content that was removed from the game. */
  datatype Verdict = Accept | Reject | Disable

  type Verify = (nat, Entry) -> Verdict

  /** A test that always fails: the empty condition holds, so its result is turned round. */
  function Disabled(e: Entry): Entry {
    e.(kind := Empty, reverse := !e.reverse)
  }

  predicate KeptOperand(table: Table, verify: Verify, id: nat, value: int)
    decreases id, 0
  {
    Number(value) < id && Kept(table, verify, Number(value))
  }

  /** Whether an entry survives: its operands have lower numbers and survive; a test is not rejected. */
  predicate Kept(table: Table, verify: Verify, id: nat)
    decreases id, 1
  {
    id in table &&
    var e := table[id];
    match e.kind
    case Not => KeptOperand(table, verify, id, e.value1)
    case Empty => true
    case Test(_) => verify(id, e) != Reject
    case _ =>
      && KeptOperand(table, verify, id, e.value1) && KeptOperand(table, verify, id, e.value2)
      && (e.value3 != 0 ==> KeptOperand(table, verify, id, e.value3))
      && (e.value4 != 0 ==> KeptOperand(table, verify, id, e.value4))
  }

  predicate SwitchedOff(verify: Verify, id: nat, e: Entry) {
    e.kind.Test? && verify(id, e) == Disable
  }

  /** The table when the entries below `i` have been checked. */
  function Loaded(table: Table, verify: Verify, i: nat): Table {
    map id | id in table && (id < i ==> Kept(table, verify, id)) ::
      if id < i && SwitchedOff(verify, id, table[id]) then Disabled(table[id]) else table[id]
  }

  class ConditionStorage {
    var entries: Table

    constructor (table: Table)
      ensures entries == table
    {
      entries := table;
    }

    method DisableCondition(id: nat)
      requires id in entries
      modifies this
      ensures entries == old(entries)[id := Disabled(old(entries)[id])]
    {
      entries := entries[id := entries[id].(kind := Empty)];
      entries := entries[id := entries[id].(reverse := !entries[id].reverse)];
    }

    /** Whether an operand is a lower number with a proper condition. */
    predicate Proper(id: nat, value: int)
      reads this
    {
      Number(value) < id && Number(value) in entries
    }

    method IsValid(id: nat, verify: Verify) returns (valid: bool)
      requires id in entries
      modifies this
      ensures var e := old(entries)[id];
        valid <==>
          match e.kind
          case Not => old(Proper(id, e.value1))
          case Empty => true
          case Test(_) => verify(id, e) != Reject
          case _ =>
            && old(Proper(id, e.value1)) && old(Proper(id, e.value2))
            && (e.value3 != 0 ==> old(Proper(id, e.value3)))
            && (e.value4 != 0 ==> old(Proper(id, e.value4)))
      ensures var e := old(entries)[id];
        entries == if SwitchedOff(verify, id, e) then old(entries)[id := Disabled(e)] else old(entries)
    {
      hide Number;
      var e := entries[id];
      match e.kind {
        case Not =>
          if Number(e.value1) >= id { return false; }
          if Number(e.value1) !in entries { return false; }
        case Empty =>
        case Test(_) =>
          match verify(id, e) {
            case Reject => return false;
            case Disable => DisableCondition(id);
            case Accept =>
          }
        case _ =>
          if Number(e.value1) >= id { return false; }
          if Number(e.value2) >= id { return false; }
          if Number(e.value1) !in entries { return false; }
          if Number(e.value2) !in entries { return false; }
          if e.value3 != 0 {
            if Number(e.value3) >= id { return false; }
            if Number(e.value3) !in entries { return false; }
          }
          if e.value4 != 0 {
            if Number(e.value4) >= id { return false; }
            if Number(e.value4) !in entries { return false; }
          }
      }
      return true;
    }

    method LoadConditions(maxEntry: nat, verify: Verify)
      modifies this
      ensures entries == Loaded(old(entries), verify, maxEntry)
    {
      LoadedStart(entries, verify);
      for i := 0 to maxEntry
        invariant entries == Loaded(old(entries), verify, i)
      {
        ghost var table := old(entries);
        LoadedNext(table, verify, i);
        if i in entries {
          OperandsSoFar(table, verify, i);
          hide Loaded, Kept, Number;
          var valid := IsValid(i, verify);
          if !valid {
            entries := entries - {i};
          }
        }
      }
    }
  }

  lemma LoadedStart(table: Table, verify: Verify)
    ensures Loaded(table, verify, 0) == table
  {
  }

  /** What checking entry `i` does to the table. */
  lemma LoadedNext(table: Table, verify: Verify, i: nat)
    ensures Loaded(table, verify, i + 1) ==
      if i !in table then Loaded(table, verify, i)
      else if !Kept(table, verify, i) then Loaded(table, verify, i) - {i}
      else if SwitchedOff(verify, i, table[i]) then Loaded(table, verify, i)[i := Disabled(table[i])]
      else Loaded(table, verify, i)
  {
    hide Kept, SwitchedOff;
  }

  /** Lower entries have been checked before they are looked up. */
  lemma OperandsSoFar(table: Table, verify: Verify, i: nat)
    requires i in Loaded(table, verify, i)
    ensures i in table && Loaded(table, verify, i)[i] == table[i]
    ensures forall value: int :: KeptOperand(table, verify, i, value) <==> Number(value) < i && Number(value) in Loaded(table, verify, i)
  {
    hide Number;
    forall value: int ensures KeptOperand(table, verify, i, value) <==> Number(value) < i && Number(value) in Loaded(table, verify, i) {
      KeptExists(table, verify, Number(value));
    }
  }

  lemma KeptExists(table: Table, verify: Verify, id: nat)
    ensures Kept(table, verify, id) ==> id in table
  {
  }

  // ---------- What loading achieves ----------

  /** What loading does not look at: the third and fourth operands of the negations that survive. */
  ghost predicate NotsReachDown(table: Table, verify: Verify) {
    forall id: nat {:trigger Kept(table, verify, id)} :: Kept(table, verify, id) && table[id].kind.Not? ==>
      && (table[id].value3 != 0 ==> KeptOperand(table, verify, id, table[id].value3))
      && (table[id].value4 != 0 ==> KeptOperand(table, verify, id, table[id].value4))
  }

  /** The surviving entries as they were before loading. */
  function Survivors(table: Table, verify: Verify, max: nat): Table {
    map id | id in table && (id < max ==> Kept(table, verify, id)) :: table[id]
  }

  /** The surviving tests that loading switched off. */
  function Off(table: Table, verify: Verify, max: nat): set<nat> {
    set id | id in table && id < max && Kept(table, verify, id) && SwitchedOff(verify, id, table[id])
  }

  /** Loading leaves an operand in place just when it has a lower number and survives. */
  lemma LowerIsKept(table: Table, verify: Verify, max: nat, id: nat, value: int)
    requires forall k :: k in table ==> k < max
    ensures Lower(Survivors(table, verify, max), id, value) <==> KeptOperand(table, verify, id, value)
    ensures Lower(Loaded(table, verify, max), id, value) <==> KeptOperand(table, verify, id, value)
  {
    hide Number;
    KeptExists(table, verify, Number(value));
  }

  lemma SoundIs(table: Table, verify: Verify, max: nat, id: nat)
    requires id in table && Kept(table, verify, id) && forall k :: k in table ==> k < max
    ensures id in Survivors(table, verify, max) && id in Loaded(table, verify, max)
    ensures var e := table[id];
      var down := e.kind.Not? ==>
        (e.value3 != 0 ==> KeptOperand(table, verify, id, e.value3)) && (e.value4 != 0 ==> KeptOperand(table, verify, id, e.value4));
      (Sound(Survivors(table, verify, max), id) <==> down) && (Sound(Loaded(table, verify, max), id) <==> down)
  {
    hide Number, KeptOperand, Lower;
    var e := table[id];
    LowerIsKept(table, verify, max, id, e.value1);
    LowerIsKept(table, verify, max, id, e.value2);
    LowerIsKept(table, verify, max, id, e.value3);
    LowerIsKept(table, verify, max, id, e.value4);
  }

  /**
   After loading, every operand that evaluation looks up exists and has a lower number, just when
   the third and fourth operands of negations, which loading does not look at, do.
   */
  lemma LoadedIsClosedExactly(table: Table, verify: Verify, max: nat)
    requires forall id :: id in table ==> id < max
    ensures Closed(Loaded(table, verify, max)) <==> NotsReachDown(table, verify)
    ensures Closed(Survivors(table, verify, max)) <==> NotsReachDown(table, verify)
  {
    hide Sound, KeptOperand, SwitchedOff;
    var survivors, loaded := Survivors(table, verify, max), Loaded(table, verify, max);
    forall id: nat | Kept(table, verify, id) ensures id in table {
      KeptExists(table, verify, id);
    }
    forall id: nat | id in table && Kept(table, verify, id)
      ensures id in survivors && id in loaded && (Sound(survivors, id) <==> Sound(loaded, id))
      ensures Sound(loaded, id) <==> table[id].kind.Not? ==>
        (table[id].value3 != 0 ==> KeptOperand(table, verify, id, table[id].value3)) && (table[id].value4 != 0 ==> KeptOperand(table, verify, id, table[id].value4)) {
      SoundIs(table, verify, max, id);
    }
    hide Kept;
    assert forall id :: id in survivors || id in loaded ==> id in table && Kept(table, verify, id);
  }

  /** `table` is `plain` with the tests in `off` disabled. */
  predicate DisabledIn(plain: Table, off: set<nat>, table: Table) {
    && plain.Keys == table.Keys
    && forall id :: id in plain ==>
         if id in off then plain[id].kind.Test? && table[id] == Disabled(plain[id]) else table[id] == plain[id]
  }

  lemma SameOperands(plain: Table, off: set<nat>, table: Table, id: nat)
    requires DisabledIn(plain, off, table)
    ensures id in plain <==> id in table
    ensures id in plain ==> Extra(table[id]) == Extra(plain[id]) && Main(table[id]) == Main(plain[id])
  {
    hide Number;
  }

  /** Disabling tests, which have no operands, makes no entry deeper or less deep. */
  lemma {:induction false} DisablingIsLevel(plain: Table, off: set<nat>, table: Table, id: nat, depth: nat)
    requires DisabledIn(plain, off, table)
    ensures Grounded(table, id, depth) <==> Grounded(plain, id, depth)
    decreases depth
  {
    hide Extra, Main, DisabledIn;
    SameOperands(plain, off, table, id);
    if depth > 0 && id in plain {
      var e := plain[id];
      forall i | 0 <= i < |Extra(e)| ensures Grounded(table, Extra(e)[i], depth - 1) <==> Grounded(plain, Extra(e)[i], depth - 1) {
        DisablingIsLevel(plain, off, table, Extra(e)[i], depth - 1);
      }
      forall i | 0 <= i < |Main(e)| ensures Grounded(table, Main(e)[i], depth - 1) <==> Grounded(plain, Main(e)[i], depth - 1) {
        DisablingIsLevel(plain, off, table, Main(e)[i], depth - 1);
      }
    }
  }

  /** Disabling tests is making them fail, with acceptable parameters, in every tree around them. */
  lemma {:induction false} DisablingIsFailing(plain: Table, off: set<nat>, table: Table, id: nat, p: Params, tests: Tests, depth: nat)
    requires DisabledIn(plain, off, table) && Grounded(plain, id, depth) && Grounded(table, id, depth)
    ensures Value(TreeOf(table, id, depth), {}, p, tests) == Value(TreeOf(plain, id, depth), off, p, tests)
    decreases depth
  {
    hide CheckParamRequirements, Number, Extra, Main;
    var e := plain[id];
    assert if id in off then e.kind.Test? && table[id] == Disabled(e) else table[id] == e;
    var q := if e.swap then Swapped(p) else p;
    if Combines(e.kind) {
      var t, u := TreeOf(table, id, depth), TreeOf(plain, id, depth);
      TreeShape(table, id, depth);
      TreeShape(plain, id, depth);
      hide TreeOf, Grounded;
      forall i | 0 <= i < |u.extra| ensures Value(t.extra[i], {}, q, tests) == Value(u.extra[i], off, q, tests) {
        DisablingIsFailing(plain, off, table, Extra(e)[i], q, tests, depth - 1);
      }
      forall i | 0 <= i < |u.main| ensures Value(t.main[i], {}, q, tests) == Value(u.main[i], off, q, tests) {
        DisablingIsFailing(plain, off, table, Main(e)[i], q, tests, depth - 1);
      }
    } else {
      DisablingLeaf(plain, off, table, id, p, tests, depth);
    }
  }

  lemma DisablingLeaf(plain: Table, off: set<nat>, table: Table, id: nat, p: Params, tests: Tests, depth: nat)
    requires DisabledIn(plain, off, table) && Grounded(plain, id, depth) && Grounded(table, id, depth) && !Combines(plain[id].kind)
    ensures Value(TreeOf(table, id, depth), {}, p, tests) == Value(TreeOf(plain, id, depth), off, p, tests)
  {
    hide CheckParamRequirements, Number;
    var e := plain[id];
    assert if id in off then e.kind.Test? && table[id] == Disabled(e) else table[id] == e;
    assert Extra(table[id]) == [] && Main(table[id]) == [] && Extra(e) == [] && Main(e) == [];
  }

  /**
   A loaded condition whose operands exist all the way down, whatever their numbers, comes to an
   answer: that of the tree of its unloaded entries with the tests switched off counted as failed.
   */
  lemma LoadedMeaning(table: Table, verify: Verify, max: nat, id: nat, p: Params, tests: Tests, depth: nat)
    requires (forall k :: k in table ==> k < max) && Grounded(Loaded(table, verify, max), id, depth)
    ensures Grounded(Survivors(table, verify, max), id, depth)
    ensures MeetsWithin(Loaded(table, verify, max), id, p, tests, depth) ==
      Some(Value(TreeOf(Survivors(table, verify, max), id, depth), Off(table, verify, max), p, tests))
  {
    var survivors, off, loaded := Survivors(table, verify, max), Off(table, verify, max), Loaded(table, verify, max);
    hide Kept, MeetsWithin, Value, TreeOf, Grounded;
    assert DisabledIn(survivors, off, loaded);
    DisablingIsLevel(survivors, off, loaded, id, depth);
    MeetsIsValue(loaded, id, p, tests, depth);
    DisablingIsFailing(survivors, off, loaded, id, p, tests, depth);
  }

  /** When no surviving negation reaches up, every loaded condition comes to an answer. */
  lemma LoadedAnswers(table: Table, verify: Verify, max: nat, id: nat)
    requires NotsReachDown(table, verify) && forall k :: k in table ==> k < max
    ensures id in Loaded(table, verify, max) ==> Grounded(Loaded(table, verify, max), id, id + 1)
  {
    hide Kept, Closed, Grounded, NotsReachDown;
    LoadedIsClosedExactly(table, verify, max);
    if id in Loaded(table, verify, max) {
      ClosedIsGrounded(Loaded(table, verify, max), id);
    }
  }

  /** A negation whose third operand is itself loads, and asked about never comes to an answer. */
  lemma NegationOfItselfLoads(verify: Verify, p: Params, tests: Tests, fuel: nat)
    ensures var none, self := Entry(Empty, 0, 0, 0, 0, false, false), Entry(Not, 1, 0, 2, 0, false, false);
      var loaded := Loaded(map[1 := none, 2 := self], verify, 3);
      2 in loaded && loaded[2] == self && !Closed(loaded) && MeetsWithin(loaded, 2, p, tests, fuel) == None
  {
    var none, self := Entry(Empty, 0, 0, 0, 0, false, false), Entry(Not, 1, 0, 2, 0, false, false);
    var table: Table := map[1 := none, 2 := self];
    assert Kept(table, verify, 1);
    assert KeptOperand(table, verify, 2, 1);
    assert !Lower(Loaded(table, verify, 3), 2, 2);
    assert !Sound(Loaded(table, verify, 3), 2);
    AsksItself(Loaded(table, verify, 3), 2, p, tests, fuel);
  }

  /** An entry that asks itself first gets no answer, however long it is given. */
  lemma {:induction false} AsksItself(table: Table, id: nat, p: Params, tests: Tests, fuel: nat)
    requires id in table && table[id].kind.Not? && table[id].value3 != 0 && Number(table[id].value3) == id
    ensures MeetsWithin(table, id, p, tests, fuel) == None
    decreases fuel
  {
    if fuel > 0 {
      var e := table[id];
      var q := if e.swap then Swapped(p) else p;
      NothingNeeded(e.kind, q);
      AsksItself(table, id, q, tests, fuel - 1);
      assert OperandWithin(table, e.value3, false, q, tests, fuel - 1) == None;
      assert EvaluateWithin(table, e, q, tests, fuel - 1) == None;
    }
  }
}
