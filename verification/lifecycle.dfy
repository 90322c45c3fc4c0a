/** Ownership lifecycle of the payload a `FixedFunction` holds, counted the way
    the allocation tests count it: every default construction, copy, move,
    copy-assignment, move-assignment and destruction of the payload type. */
module Lifecycle {
  import opened Optional
  import opened FixedFunction

  /** Whether the payload type has a move constructor (the copy-only test deletes it). */
  datatype Ability = Movable | CopyOnly

  /** The counts of the payload type's special members. */
  datatype Tally = Tally(defaults: nat, copies: nat, moves: nat,
                         copyAssigns: nat, moveAssigns: nat, destroys: nat)

  /** A live payload object: one carrying its string, or one left in the
      valid but unspecified state a move may leave behind. */
  datatype Obj = Intact(payload: string) | Hollow

  /** One block of a test: the payload type's ability, the tally so far, the
      named payload locals (`None` once destroyed) and the wrappers declared so far. */
  datatype Scope = Scope(ability: Ability, tally: Tally,
                         values: seq<Option<Obj>>, wrappers: seq<Wrapper<Obj>>)

  /** The statements the tests execute inside a block. */
  datatype Op =
    | DeclareValue(payload: string)   // `cnt c1;`
    | WrapValue(value: nat)           // `FixedFunction<...> f1(c1);`
    | DeclareEmpty                    // `FixedFunction<...> f2;`
    | MoveAssign(dst: nat, src: nat)  // `f2 = std::move(f1);`
    | MoveConstruct(src: nat)         // `FixedFunction<...> f3(std::move(f2));`
    | LeaveScope                      // the closing brace

  /** How many elements of `xs` satisfy `p`. */
  function CountWhere<T>(xs: seq<T>, p: T -> bool): (c: nat)
    ensures c <= |xs|
    decreases |xs|
  {
    if xs == [] then 0 else CountWhere(xs[..|xs| - 1], p) + (if p(xs[|xs| - 1]) then 1 else 0)
  }

  lemma CountWhereAppend<T>(xs: seq<T>, x: T, p: T -> bool)
    ensures CountWhere(xs + [x], p) == CountWhere(xs, p) + (if p(x) then 1 else 0)
  {
    assert (xs + [x])[..|xs|] == xs;
  }

  lemma {:induction false} CountWhereNone<T>(xs: seq<T>, p: T -> bool)
    requires forall i :: 0 <= i < |xs| ==> !p(xs[i])
    ensures CountWhere(xs, p) == 0
    decreases |xs|
  {
    if xs != [] {
      CountWhereNone(xs[..|xs| - 1], p);
    }
  }

  /** Replacing one element changes the count by the difference it makes. */
  lemma {:induction false} CountWhereUpdate<T>(xs: seq<T>, i: nat, x: T, p: T -> bool)
    requires i < |xs|
    ensures CountWhere(xs[i := x], p) + (if p(xs[i]) then 1 else 0)
            == CountWhere(xs, p) + (if p(x) then 1 else 0)
    decreases |xs|
  {
    var last := |xs| - 1;
    assert xs[i := x][..last] == if i == last then xs[..last] else xs[..last][i := x];
    if i < last {
      CountWhereUpdate(xs[..last], i, x, p);
    }
  }

  /** A positive count has a witness. */
  lemma {:induction false} CountWherePositive<T>(xs: seq<T>, p: T -> bool)
    requires CountWhere(xs, p) > 0
    ensures exists i :: 0 <= i < |xs| && p(xs[i])
    decreases |xs|
  {
    var last := |xs| - 1;
    if !p(xs[last]) {
      CountWherePositive(xs[..last], p);
      var i :| 0 <= i < last && p(xs[..last][i]);
      assert xs[i] == xs[..last][i];
    }
  }

  predicate IsHeld(w: Wrapper<Obj>) { w.Holds? }
  predicate IsAlive(v: Option<Obj>) { v.Some? }

  /** Payload objects alive in a scope: those in wrappers and the undestroyed locals. */
  function Live(s: Scope): (n: nat)
    ensures n <= |s.wrappers| + |s.values|
  {
    CountWhere(s.wrappers, IsHeld) + CountWhere(s.values, IsAlive)
  }

  function Constructions(t: Tally): (n: nat)
  {
    t.defaults + t.copies + t.moves
  }

  /** The conservation invariant: every object constructed is either still
      alive or destroyed exactly once; the wrapper never uses the payload's
      assignment operators; and a movable payload is never copied, a copy-only
      one never moved. */
  predicate Balanced(s: Scope)
  {
    && Constructions(s.tally) == s.tally.destroys + Live(s)
    && s.tally.copyAssigns == 0 && s.tally.moveAssigns == 0
    && (s.ability == Movable ==> s.tally.copies == 0)
    && (s.ability == CopyOnly ==> s.tally.moves == 0)
  }

  /** A block before its first statement. */
  function Fresh(ability: Ability): (s: Scope)
  {
    Scope(ability, Tally(0, 0, 0, 0, 0, 0), [], [])
  }

  /** A block starts balanced, with nothing alive. */
  lemma FreshIsBalanced(ability: Ability)
    ensures Balanced(Fresh(ability)) && Live(Fresh(ability)) == 0
  {
  }

  /** Which statements are well-formed in a scope: they name declared,
      undestroyed variables (anything else does not compile). A self move is
      left out. */
  predicate Applicable(s: Scope, op: Op)
  {
    match op
    case WrapValue(v) => v < |s.values| && s.values[v].Some?
    case MoveAssign(d, src) => d < |s.wrappers| && src < |s.wrappers| && d != src
    case MoveConstruct(src) => src < |s.wrappers|
    case _ => true
  }

  /** Constructing a new payload object from an existing one: by move when
      the type has a move constructor, by copy otherwise. */
  function Transfer(ability: Ability, t: Tally): (u: Tally)
  {
    if ability == Movable then t.(moves := t.moves + 1) else t.(copies := t.copies + 1)
  }

  /** The tally after relocating `w`: one transfer into the destination and
      one destruction of the source's object, or nothing if `w` is empty. */
  function Relocation(ability: Ability, t: Tally, w: Wrapper<Obj>): (u: Tally)
  {
    if w.Holds? then
      var u := Transfer(ability, t);
      u.(destroys := u.destroys + 1)
    else t
  }

  /** `cnt c1;`: one default construction and a new live local; no wrapper
      is touched. */
  function NewValue(s: Scope, p: string): (r: Scope)
    ensures r.ability == s.ability && r.wrappers == s.wrappers
    ensures r.values == s.values + [Some(Intact(p))]
    ensures r.tally == s.tally.(defaults := s.tally.defaults + 1)
  {
    s.(tally := s.tally.(defaults := s.tally.defaults + 1),
       values := s.values + [Some(Intact(p))])
  }

  /** `FixedFunction<...> f(c1);`: a new wrapper holding the local's object,
      taken by one move that leaves the local moved-from, or by one copy that
      leaves it as it was when the payload cannot be moved. Nothing is destroyed. */
  function NewWrapper(s: Scope, v: nat): (r: Scope)
    requires v < |s.values| && s.values[v].Some?
    ensures r.ability == s.ability
    ensures r.wrappers == s.wrappers + [Holds(s.values[v].value)]
    ensures |r.values| == |s.values| && r.values[v].Some?
    ensures forall k :: 0 <= k < |s.values| && k != v ==> r.values[k] == s.values[k]
    ensures r.tally.defaults == s.tally.defaults && r.tally.destroys == s.tally.destroys
    ensures r.tally.copyAssigns == s.tally.copyAssigns && r.tally.moveAssigns == s.tally.moveAssigns
    ensures s.ability == Movable ==>
              r.tally.moves == s.tally.moves + 1 && r.tally.copies == s.tally.copies
              && r.values[v] == Some(Hollow)
    ensures s.ability == CopyOnly ==>
              r.tally.copies == s.tally.copies + 1 && r.tally.moves == s.tally.moves
              && r.values == s.values
  {
    var obj := s.values[v].value;
    var left := if s.ability == Movable then Hollow else obj;
    s.(tally := Transfer(s.ability, s.tally),
       values := s.values[v := Some(left)],
       wrappers := s.wrappers + [Holds(obj)])
  }

  /** `FixedFunction<...> f;`: an empty wrapper; no payload is constructed or destroyed. */
  function NewEmptyWrapper(s: Scope): (r: Scope)
    ensures r.ability == s.ability && r.tally == s.tally && r.values == s.values
    ensures r.wrappers == s.wrappers + [Empty]
  {
    s.(wrappers := s.wrappers + [Empty])
  }

  /** `fd = std::move(fs);`: the destination's object, if any, is destroyed;
      then the source's object, if any, is relocated: one transfer into the
      destination and one destruction of the source's object. */
  function AssignMoved(s: Scope, d: nat, src: nat): (r: Scope)
    requires d < |s.wrappers| && src < |s.wrappers| && d != src
    ensures r.ability == s.ability && r.values == s.values
    ensures |r.wrappers| == |s.wrappers|
    ensures r.tally.defaults == s.tally.defaults
    ensures r.tally.copyAssigns == s.tally.copyAssigns && r.tally.moveAssigns == s.tally.moveAssigns
    ensures Constructions(r.tally) == Constructions(s.tally) + (if s.wrappers[src].Holds? then 1 else 0)
    ensures r.tally.destroys == s.tally.destroys + (if s.wrappers[d].Holds? then 1 else 0)
                                                 + (if s.wrappers[src].Holds? then 1 else 0)
  {
    var prior := if s.wrappers[d].Holds? then 1 else 0;
    var m := Relocate(s.wrappers[src]);
    var t := s.tally.(destroys := s.tally.destroys + prior);
    s.(tally := Relocation(s.ability, t, s.wrappers[src]),
       wrappers := s.wrappers[d := m.dst][src := m.src])
  }

  /** `FixedFunction<...> f(std::move(fs));`: a new wrapper, into which the
      source's object, if any, is relocated with one transfer and one destruction. */
  function ConstructMoved(s: Scope, src: nat): (r: Scope)
    requires src < |s.wrappers|
    ensures r.ability == s.ability && r.values == s.values
    ensures |r.wrappers| == |s.wrappers| + 1
    ensures r.tally.defaults == s.tally.defaults
    ensures r.tally.copyAssigns == s.tally.copyAssigns && r.tally.moveAssigns == s.tally.moveAssigns
    ensures Constructions(r.tally) == Constructions(s.tally) + (if s.wrappers[src].Holds? then 1 else 0)
    ensures r.tally.destroys == s.tally.destroys + (if s.wrappers[src].Holds? then 1 else 0)
  {
    var m := Relocate(s.wrappers[src]);
    s.(tally := Relocation(s.ability, s.tally, s.wrappers[src]),
       wrappers := s.wrappers[src := m.src] + [m.dst])
  }

  /** The closing brace: no variable survives, every live object is destroyed
      once, and nothing new is constructed. */
  function CloseBlock(s: Scope): (r: Scope)
    ensures r.values == [] && r.wrappers == []
    ensures r.tally.destroys == s.tally.destroys + Live(s)
    ensures Constructions(r.tally) == Constructions(s.tally)
  {
    s.(tally := s.tally.(destroys := s.tally.destroys + Live(s)),
       values := [], wrappers := [])
  }

  /** One statement of a block. No statement uses the payload's assignment
      operators, and no count ever goes down. */
  function Step(s: Scope, op: Op): (r: Scope)
    requires Applicable(s, op)
    ensures r.ability == s.ability
    ensures r.tally.copyAssigns == s.tally.copyAssigns && r.tally.moveAssigns == s.tally.moveAssigns
    ensures r.tally.defaults >= s.tally.defaults && r.tally.copies >= s.tally.copies
    ensures r.tally.moves >= s.tally.moves && r.tally.destroys >= s.tally.destroys
  {
    match op
    case DeclareValue(p) => NewValue(s, p)
    case WrapValue(v) => NewWrapper(s, v)
    case DeclareEmpty => NewEmptyWrapper(s)
    case MoveAssign(d, src) => AssignMoved(s, d, src)
    case MoveConstruct(src) => ConstructMoved(s, src)
    case LeaveScope => CloseBlock(s)
  }

  /** Every statement keeps the conservation invariant. */
  lemma StepKeepsBalance(s: Scope, op: Op)
    requires Balanced(s) && Applicable(s, op)
    ensures Balanced(Step(s, op))
  {
    match op
    case DeclareValue(p) =>
      CountWhereAppend(s.values, Some(Intact(p)), IsAlive);
    case WrapValue(v) =>
      var left := if s.ability == Movable then Hollow else s.values[v].value;
      CountWhereUpdate(s.values, v, Some(left), IsAlive);
      CountWhereAppend(s.wrappers, Holds(s.values[v].value), IsHeld);
    case DeclareEmpty =>
      CountWhereAppend(s.wrappers, Empty, IsHeld);
    case MoveAssign(d, src) =>
      MoveAssignRelocates(s, d, src);
    case MoveConstruct(src) =>
      MoveConstructRelocates(s, src);
    case LeaveScope =>
  }

  /** A whole block; `None` if some statement is not well-formed where it stands. */
  function Run(s: Scope, ops: seq<Op>): (r: Option<Scope>)
    decreases |ops|
  {
    if ops == [] then Some(s)
    else if Applicable(s, ops[0]) then Run(Step(s, ops[0]), ops[1..])
    else None
  }

  /** Any well-formed block keeps the conservation invariant. */
  lemma {:induction false} RunKeepsBalance(s: Scope, ops: seq<Op>)
    requires Balanced(s)
    ensures Run(s, ops).Some? ==> Balanced(Run(s, ops).value)
    decreases |ops|
  {
    if ops != [] && Applicable(s, ops[0]) {
      StepKeepsBalance(s, ops[0]);
      RunKeepsBalance(Step(s, ops[0]), ops[1..]);
    }
  }

  /** Closing a balanced block destroys exactly what was constructed: no leak
      and no double destruction. */
  lemma LeavingBalancesDestroys(s: Scope)
    requires Balanced(s)
    ensures var t := Step(s, LeaveScope).tally;
            t.destroys == t.defaults + t.copies + t.moves
    ensures Live(Step(s, LeaveScope)) == 0
  {
  }

  /** Move-assignment leaves the source empty, gives the destination the
      source's former content, and touches no other wrapper and no local; the
      destination's prior object is the only live object it can remove, and it
      never adds one. */
  lemma MoveAssignRelocates(s: Scope, d: nat, src: nat)
    requires Applicable(s, MoveAssign(d, src))
    ensures var r := Step(s, MoveAssign(d, src));
            && |r.wrappers| == |s.wrappers|
            && r.wrappers[src] == Empty
            && r.wrappers[d] == s.wrappers[src]
            && (forall k :: 0 <= k < |s.wrappers| && k != d && k != src ==> r.wrappers[k] == s.wrappers[k])
            && r.values == s.values
            && Live(r) + (if s.wrappers[d].Holds? then 1 else 0) == Live(s)
  {
    var m := Relocate(s.wrappers[src]);
    CountWhereUpdate(s.wrappers, d, m.dst, IsHeld);
    CountWhereUpdate(s.wrappers[d := m.dst], src, m.src, IsHeld);
  }

  /** Move-construction leaves the source empty, gives the new wrapper the
      source's former content, and touches no other wrapper and no local; the
      number of live objects is unchanged. */
  lemma MoveConstructRelocates(s: Scope, src: nat)
    requires Applicable(s, MoveConstruct(src))
    ensures var r := Step(s, MoveConstruct(src));
            && |r.wrappers| == |s.wrappers| + 1
            && r.wrappers[src] == Empty
            && r.wrappers[|s.wrappers|] == s.wrappers[src]
            && (forall k :: 0 <= k < |s.wrappers| && k != src ==> r.wrappers[k] == s.wrappers[k])
            && r.values == s.values
            && Live(r) == Live(s)
  {
    var m := Relocate(s.wrappers[src]);
    CountWhereUpdate(s.wrappers, src, m.src, IsHeld);
    CountWhereAppend(s.wrappers[src := m.src], m.dst, IsHeld);
  }

  /** Every wrapper that holds anything holds `o`. */
  predicate OnlyHolds(ws: seq<Wrapper<Obj>>, o: Obj)
  {
    forall k :: 0 <= k < |ws| && ws[k].Holds? ==> ws[k].obj == o
  }

  predicate IsRelocation(op: Op)
  {
    op.MoveAssign? || op.MoveConstruct?
  }

  /** The block never move-assigns into a wrapper that already holds an object. */
  predicate NoOverwrite(s: Scope, ops: seq<Op>)
    decreases |ops|
  {
    ops == [] ||
    (&& Applicable(s, ops[0])
     && (ops[0].MoveAssign? ==> s.wrappers[ops[0].dst].Empty?)
     && NoOverwrite(Step(s, ops[0]), ops[1..]))
  }

  /** One wrapper move keeps the locals, never adds a held object, keeps the
      held objects among `o`, and keeps their number unless it overwrites one. */
  lemma RelocationStep(s: Scope, op: Op, o: Obj)
    requires IsRelocation(op) && Applicable(s, op) && OnlyHolds(s.wrappers, o)
    ensures var r := Step(s, op);
            && r.values == s.values
            && CountWhere(r.wrappers, IsHeld) <= CountWhere(s.wrappers, IsHeld)
            && OnlyHolds(r.wrappers, o)
            && ((op.MoveAssign? && s.wrappers[op.dst].Empty?) || op.MoveConstruct? ==>
                  CountWhere(r.wrappers, IsHeld) == CountWhere(s.wrappers, IsHeld))
  {
    var r := Step(s, op);
    match op
    case MoveAssign(d, src) =>
      MoveAssignRelocates(s, d, src);
      forall k | 0 <= k < |r.wrappers| && r.wrappers[k].Holds?
        ensures r.wrappers[k].obj == o
      {
        if k != d && k != src {
          assert r.wrappers[k] == s.wrappers[k];
        }
      }
    case MoveConstruct(src) =>
      MoveConstructRelocates(s, src);
      forall k | 0 <= k < |r.wrappers| && r.wrappers[k].Holds?
        ensures r.wrappers[k].obj == o
      {
        if k != src && k != |s.wrappers| {
          assert r.wrappers[k] == s.wrappers[k];
        }
      }
  }

  /** A chain of wrapper moves starting from wrappers that hold at most one
      object `o`: however long the chain, the wrappers still hold at most one
      object, it is `o` (content is preserved), and the locals are untouched.
      When no move overwrites a held object, the number of held objects is
      exactly what it was. */
  lemma {:induction false} RelocationChainKeepsPayload(s: Scope, ops: seq<Op>, o: Obj)
    requires forall i :: 0 <= i < |ops| ==> IsRelocation(ops[i])
    requires CountWhere(s.wrappers, IsHeld) <= 1 && OnlyHolds(s.wrappers, o)
    ensures Run(s, ops).Some? ==>
              && Run(s, ops).value.values == s.values
              && CountWhere(Run(s, ops).value.wrappers, IsHeld) <= 1
              && OnlyHolds(Run(s, ops).value.wrappers, o)
    ensures NoOverwrite(s, ops) ==>
              && Run(s, ops).Some?
              && CountWhere(Run(s, ops).value.wrappers, IsHeld) == CountWhere(s.wrappers, IsHeld)
    decreases |ops|
  {
    if ops != [] && Applicable(s, ops[0]) {
      var r := Step(s, ops[0]);
      RelocationStep(s, ops[0], o);
      assert Run(s, ops) == Run(r, ops[1..]);
      assert NoOverwrite(s, ops) ==> NoOverwrite(r, ops[1..]);
      RelocationChainKeepsPayload(r, ops[1..], o);
    }
  }

  /** Invoking the final wrapper yields the original payload, whatever chain
      of moves led there: starting with exactly one wrapper holding `p` and
      never move-assigning over a held object, the block ends with some
      wrapper still holding an object, and invoking any wrapper that holds
      one returns `p`. */
  lemma ChainInvokesOriginal(s: Scope, ops: seq<Op>, p: string)
    requires forall i :: 0 <= i < |ops| ==> IsRelocation(ops[i])
    requires CountWhere(s.wrappers, IsHeld) == 1 && OnlyHolds(s.wrappers, Intact(p))
    requires NoOverwrite(s, ops)
    ensures Run(s, ops).Some?
    ensures var r := Run(s, ops).value;
            exists k :: 0 <= k < |r.wrappers| && IsHeld(r.wrappers[k])
                        && r.wrappers[k].obj.Intact? && Invoke(r, k) == p
    ensures var r := Run(s, ops).value;
            forall k :: 0 <= k < |r.wrappers| && r.wrappers[k].Holds? ==>
                          r.wrappers[k].obj.Intact? && Invoke(r, k) == p
  {
    RelocationChainKeepsPayload(s, ops, Intact(p));
    var r := Run(s, ops).value;
    CountWherePositive(r.wrappers, IsHeld);
    var k :| 0 <= k < |r.wrappers| && IsHeld(r.wrappers[k]);
    assert Invoke(r, k) == p;
  }

  /** What the counting payload's call operator does: return its string. */
  function Operator(o: Obj): (f: (()) -> string)
    requires o.Intact?
  {
    _ => o.payload
  }

  /** `f3()`: invoking a wrapper calls the held object's operator, which for an
      intact counting payload returns its string. */
  function Invoke(s: Scope, w: nat): (result: string)
    requires w < |s.wrappers| && s.wrappers[w].Holds? && s.wrappers[w].obj.Intact?
    ensures result == s.wrappers[w].obj.payload
  {
    Call(Holds(Operator(s.wrappers[w].obj)), ())
  }

  /** The allocation tests' block: declare a payload, wrap it, move-assign the
      wrapper into an empty one, move-construct a third from that, invoke the
      third, and leave the block. */
  method AllocDealloc(ability: Ability, payload: string) returns (result: string, tally: Tally)
    ensures result == payload
    ensures tally.destroys == tally.defaults + tally.copies + tally.moves
    ensures tally.defaults == 1 && tally.copyAssigns == 0 && tally.moveAssigns == 0
    ensures ability == Movable ==> tally.copies == 0 && tally.moves == 3
    ensures ability == CopyOnly ==> tally.copies == 3 && tally.moves == 0
  {
    var s0 := Fresh(ability);
    var left := if ability == Movable then Hollow else Intact(payload);
    var s1 := NewValue(s0, payload);
    var s2 := NewWrapper(s1, 0);
    var s3 := NewEmptyWrapper(s2);
    var s4 := AssignMoved(s3, 1, 0);
    var s5 := ConstructMoved(s4, 1);
    assert s5.values == [Some(left)];
    assert s5.wrappers == [Empty, Empty, Holds(Intact(payload))];
    result := Invoke(s5, 2);
    assert s5.wrappers[..2] == [Empty, Empty];
    CountWhereNone(s5.wrappers[..2], IsHeld);
    assert CountWhere(s5.wrappers, IsHeld) == 1;
    assert s5.values[..0] == [];
    assert CountWhere(s5.values, IsAlive) == 1;
    var s := CloseBlock(s5);
    tally := s.tally;
  }
}
