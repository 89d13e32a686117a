/**
 * The structural checks of the inference rules, apart from the session
 * state they consult (which reasons are saved and proved, which variables
 * are fresh or bounded, which names are taken). Session.dfy runs these
 * checks in the order the rules do and adds the state.
 *
 * DualAsWritten and Instantiates are the checks the rules `dual` and `put`
 * run; Dual and InstantiatesSafely are the intended ones (see the README's
 * findings).
 */
module Rules {
  import opened Wrappers
  import opened Expr

  /** The property the equality rules read: `equal` with at least the two
      arguments they look at. */
  predicate IsEquality(n: Node)
  {
    n.Prop? && n.name == Named("equal") && |n.children| >= 2
  }

  // ---------------------------------------------------------------------
  // put, found, generalize, let
  // ---------------------------------------------------------------------

  /** put: the target is the body of the universal reason with the term put
      for the bound variable. */
  predicate Instantiates(target: Node, term: Node, reason: Node)
  {
    reason.Quant? && reason.kind == All && !IsSentence(term) &&
    Substitute(reason.statement, reason.bound, term) == Some(target)
  }

  /** found: the reason is the body of the existential target with the term
      put for the bound variable. */
  predicate Witnesses(target: Node, term: Node, reason: Node)
  {
    !IsSentence(term) && target.Quant? && target.kind == Exist &&
    Substitute(target.statement, target.bound, term) == Some(reason)
  }

  /** generalize: the target quantifies the reason universally. */
  predicate Generalizes(target: Node, reason: Node)
  {
    target.Quant? && target.kind == All && target.statement == reason
  }

  /** let: the target is the body of the existential reason with the
      variable put for the bound variable. */
  predicate Introduces(target: Node, variable: nat, reason: Node)
  {
    reason.Quant? && (reason.kind == Exist || reason.kind == UniquelyExist) &&
    Substitute(reason.statement, reason.bound, Var(variable)) == Some(target)
  }

  /** Instantiating a universal statement at its own variable and then
      generalising over that variable again gives back the statement. */
  lemma PutThenGeneralize(x: nat, p: Node)
    requires Wf(Quant(All, x, p))
    ensures Instantiates(p, Var(x), Quant(All, x, p))
    ensures Generalizes(Quant(All, x, p), p)
  {
    SubstituteSelf(p, x);
  }

  /** A variable introduced by let witnesses the existential it came from:
      found with that variable and the let's result gives the existential
      back. */
  lemma LetThenFound(target: Node, c: nat, reason: Node)
    requires Introduces(target, c, reason) && reason.kind == Exist
    ensures Witnesses(reason, Var(c), target)
  {
  }

  /** put as written lets the bound variables of the reason capture the
      term: from "every x has some y different from it" it derives "some y
      differs from itself" by putting y for x. */
  lemma PutCaptures()
    ensures var y := Var(1);
      var reason := Quant(All, 0, Quant(Exist, 1, Not(Prop(Named("equal"), [Var(0), y]))));
      var target := Quant(Exist, 1, Not(Prop(Named("equal"), [y, y])));
      Wf(reason) && WellSorted(reason) && Wf(target) &&
      Instantiates(target, y, reason) &&
      Free(reason) == {} && Free(y) == {1} && Free(target) == {}
  {
    var y := Var(1);
    var eq := Prop(Named("equal"), [Var(0), y]);
    FreeAllPair(Var(0), y);
    assert Free(eq) == {0, 1};
    assert Wf(eq) && WellSorted(eq) by {
      assert [Var(0), y][0] == Var(0) && [Var(0), y][1] == y;
    }
    var inner := Quant(Exist, 1, Not(eq));
    assert Free(inner) == {0};
    assert Bounded(eq) == {};
    assert Bounded(Not(eq)) == {};
    assert Bounded(inner) == Bounded(Not(eq)) + {1};
    assert Bounded(inner) == {1};
    var reason := Quant(All, 0, inner);
    assert Wf(inner);
    assert Wf(reason);
    SubstituteAllPair(Var(0), y, 0, y);
    var eq' := Prop(Named("equal"), [y, y]);
    assert Substitute(eq, 0, y) == Some(eq');
    FreeAllPair(y, y);
    assert Free(eq') == {1};
    assert Wf(eq') by {
      assert [y, y][0] == y && [y, y][1] == y;
    }
    assert Substitute(Not(eq), 0, y) == Some(Not(eq'));
    assert Bounded(Not(eq')) == {};
    assert Free(Not(eq')) == {1};
    assert Substitute(inner, 0, y) == Some(Quant(Exist, 1, Not(eq')));
  }

  /** put as intended: the term must not contain a variable that a
      quantifier of the reason binds. */
  predicate InstantiatesSafely(target: Node, term: Node, reason: Node)
  {
    Instantiates(target, term, reason) && Free(term) !! Bounded(reason.statement)
  }

  /** The intended put never fails on a well-formed universal reason and a
      term free for its variable, and its result keeps the free variables
      of both: the term's variables stay free and the reason's stay free. */
  lemma {:induction false} SafeInstance(term: Node, reason: Node)
    requires Wf(reason) && WellSorted(reason) && reason.Quant? && reason.kind == All
    requires Wf(term) && !IsSentence(term) && Free(term) !! Bounded(reason.statement)
    ensures Substitute(reason.statement, reason.bound, term).Some?
    ensures var target := Substitute(reason.statement, reason.bound, term).value;
      InstantiatesSafely(target, term, reason) && Wf(target) &&
      Free(target) == Free(reason) + Free(term) &&
      Bounded(target) == Bounded(reason) - {reason.bound}
  {
    SubstituteCaptureFree(reason.statement, reason.bound, term);
  }

  // ---------------------------------------------------------------------
  // claim_unique and by_unique
  // ---------------------------------------------------------------------

  /** claim_unique: the reason is a = b where a and b are variables that
      let introduced from the same statement, and that statement is the
      target with "uniquely exists" weakened to "exists". A variable no let
      introduced has no statement; two such variables pass the first test
      and fail the second. */
  predicate ClaimsUnique(target: Node, reason: Node, definedBy: map<nat, Node>)
  {
    IsEquality(reason) && reason.children[0].Var? && reason.children[1].Var? &&
    var a := reason.children[0].id;
    var b := reason.children[1].id;
    (a in definedBy <==> b in definedBy) && (a in definedBy ==> definedBy[a] == definedBy[b]) &&
    target.Quant? && target.kind == UniquelyExist &&
    a in definedBy && definedBy[a] == Quant(Exist, target.bound, target.statement)
  }

  /** by_unique: the target is a = b, the reason "uniquely exists x with
      P(x)", and the two other reasons are P(a) and P(b). */
  predicate UniqueInstances(target: Node, reason: Node, left: Node, right: Node)
  {
    IsEquality(target) && reason.Quant? && reason.kind == UniquelyExist &&
    Substitute(reason.statement, reason.bound, target.children[0]) == Some(left) &&
    Substitute(reason.statement, reason.bound, target.children[1]) == Some(right)
  }

  // ---------------------------------------------------------------------
  // define_property and define_function
  // ---------------------------------------------------------------------

  /** define_property: under its universal quantifiers the target is an
      equivalence whose left side is the property being named. */
  predicate DefinesProperty(target: Node, name: string)
  {
    var body := PeelAll(target).1;
    body.Binary? && body.op == Iff && body.left.Prop? && body.left.name == Named(name)
  }

  /** What the universal builder makes of a definition of the property is
      accepted as one. */
  lemma {:induction false} PropertyDefinitionAccepted(bounds: seq<nat>, name: string, args: seq<Node>, meaning: Node)
    requires Nest(All, bounds, Binary(Iff, Prop(Named(name), args), meaning)).Some?
    ensures DefinesProperty(Nest(All, bounds, Binary(Iff, Prop(Named(name), args), meaning)).value, name)
  {
    PeelNest(bounds, Binary(Iff, Prop(Named(name), args), meaning));
  }

  /** Every well-formed target the check accepts is such a definition:
      the universal builder applied to the bounds peeled off it and an
      equivalence with the property on the left. */
  lemma {:induction false} PropertyDefinitionShape(target: Node, name: string)
    requires Wf(target) && DefinesProperty(target, name)
    ensures var (bounds, body) := PeelAll(target);
      body == Binary(Iff, Prop(Named(name), body.left.children), body.right) &&
      Nest(All, bounds, body) == Some(target)
  {
    NestPeel(target);
  }

  /** The variables peeled off, as the arguments of the new function. */
  function Arguments(bounds: seq<nat>): (r: seq<Node>)
    ensures |r| == |bounds|
    ensures forall i | 0 <= i < |bounds| :: r[i] == Var(bounds[i])
  {
    seq(|bounds|, i requires 0 <= i < |bounds| => Var(bounds[i]))
  }

  /** define_function: from a proved "for all x, Q(x) implies there is
      exactly one y with P(x, y)" (or the same without the assumption Q)
      the rule accepts "for all x, Q(x) implies P(x, f(x))": the unique
      object is named by the new function symbol applied to the variables
      peeled off. None where the reason has another shape or a quantifier
      cannot be rebuilt. */
  function FunctionDefinition(name: string, reason: Node): (r: Option<Node>)
    ensures r.Some? ==> r.value.Quant? || PeelAll(reason).0 == []
    ensures r.Some? ==> var body := PeelAll(reason).1;
      (body.Binary? && body.op == Imply && body.right.Quant? && body.right.kind == UniquelyExist) ||
      (body.Quant? && body.kind == UniquelyExist)
  {
    var (bounds, body) := PeelAll(reason);
    var definition :- DefiningStatement(name, bounds, body);
    Nest(All, bounds, definition)
  }

  /** The statement under the quantifiers: the conclusion's unique object
      replaced by the function applied to the bounds. */
  function DefiningStatement(name: string, bounds: seq<nat>, body: Node): Option<Node>
  {
    var f := Func(Named(name), Arguments(bounds));
    if body.Binary? && body.op == Imply then
      var c := body.right;
      if c.Quant? && c.kind == UniquelyExist then
        var p :- Substitute(c.statement, c.bound, f);
        Some(Binary(Imply, body.left, p))
      else None
    else if body.Quant? && body.kind == UniquelyExist then
      Substitute(body.statement, body.bound, f)
    else None
  }

  /** The function symbol applied to the peeled variables is a term whose
      free variables are exactly those variables. */
  lemma {:induction false} ArgumentsFree(bounds: seq<nat>)
    ensures FreeAll(Arguments(bounds)) == Elems(bounds)
    ensures forall i | 0 <= i < |bounds| :: Wf(Arguments(bounds)[i])
    decreases |bounds|
  {
    if bounds != [] {
      ArgumentsFree(bounds[1..]);
      assert Arguments(bounds)[1..] == Arguments(bounds[1..]);
      ElemsCons(bounds);
    }
  }

  /** Naming the unique object: when no quantifier inside the unique
      existence binds one of the peeled variables, the new symbol goes in
      for the bound variable without capture. */
  lemma {:induction false} DefiningInstance(name: string, bounds: seq<nat>, u: Node)
    requires Wf(u) && WellSorted(u) && u.Quant?
    requires Elems(bounds) !! Bounded(u)
    ensures var p := Substitute(u.statement, u.bound, Func(Named(name), Arguments(bounds)));
      p.Some? && Wf(p.value) &&
      Free(p.value) == Free(u) + Elems(bounds) && Bounded(p.value) + {u.bound} == Bounded(u)
  {
    var fx := Func(Named(name), Arguments(bounds));
    ArgumentsFree(bounds);
    assert Free(fx) == Elems(bounds);
    SubstituteCaptureFree(u.statement, u.bound, fx);
  }

  /** What define_function accepts, for every well-formed reason of the
      right shape: the definition exists, it is the reason with the unique
      existence replaced by the statement about the new function applied
      to the peeled variables, it is well formed, and it has the reason's
      free variables. */
  lemma {:induction false} FunctionDefinitionIsInstance(name: string, reason: Node)
    requires Wf(reason) && WellSorted(reason)
    requires var body := PeelAll(reason).1;
      (body.Binary? && body.op == Imply && body.right.Quant? && body.right.kind == UniquelyExist) ||
      (body.Quant? && body.kind == UniquelyExist)
    ensures var (bounds, body) := PeelAll(reason);
      var u := if body.Binary? then body.right else body;
      var p := Substitute(u.statement, u.bound, Func(Named(name), Arguments(bounds)));
      p.Some? &&
      FunctionDefinition(name, reason) ==
        Nest(All, bounds, if body.Binary? then Binary(Imply, body.left, p.value) else p.value) &&
      FunctionDefinition(name, reason).Some? &&
      Wf(FunctionDefinition(name, reason).value) &&
      Free(FunctionDefinition(name, reason).value) == Free(reason)
  {
    var (bounds, body) := PeelAll(reason);
    NestPeel(reason);
    NestSucceeds(All, bounds, body);
    PeelWellFormed(reason);
    var u := if body.Binary? then body.right else body;
    forall x | x in Elems(bounds) ensures x !in Bounded(body) {
      var i :| 0 <= i < |bounds| && bounds[i] == x;
      assert Binds(bounds[i], body);
    }
    DefiningInstance(name, bounds, u);
    var p := Substitute(u.statement, u.bound, Func(Named(name), Arguments(bounds))).value;
    var definition := if body.Binary? then Binary(Imply, body.left, p) else p;
    assert DefiningStatement(name, bounds, body) == Some(definition);
    assert Free(definition) == Free(body) + Elems(bounds);
    assert Bounded(definition) <= Bounded(body);
    forall i | 0 <= i < |bounds| ensures Binds(bounds[i], definition) {
      assert bounds[i] in Elems(bounds);
      assert Binds(bounds[i], body);
    }
    NestSucceeds(All, bounds, definition);
  }

  /** The rule on the example of its own comment: from "every x with q(x)
      has exactly one y with p(x, y)" it accepts "every x with q(x) has
      p(x, f(x))". */
  lemma FunctionDefinitionExample()
    ensures var q := Prop(Named("q"), [Var(0)]);
      var reason := Quant(All, 0, Binary(Imply, q, Quant(UniquelyExist, 1, Prop(Named("p"), [Var(0), Var(1)]))));
      var fx := Func(Named("f"), [Var(0)]);
      FunctionDefinition("f", reason) == Some(Quant(All, 0, Binary(Imply, q, Prop(Named("p"), [Var(0), fx]))))
  {
    var q := Prop(Named("q"), [Var(0)]);
    var p := Prop(Named("p"), [Var(0), Var(1)]);
    var reason := Quant(All, 0, Binary(Imply, q, Quant(UniquelyExist, 1, p)));
    var fx := Func(Named("f"), [Var(0)]);
    assert PeelAll(reason) == ([0], Binary(Imply, q, Quant(UniquelyExist, 1, p))) by {
      assert PeelAll(reason.statement) == ([], reason.statement);
      assert [0] + [] == [0];
    }
    assert Arguments([0]) == [Var(0)];
    SubstituteAllPair(Var(0), Var(1), 1, fx);
    var conclusion := Prop(Named("p"), [Var(0), fx]);
    assert Substitute(p, 1, fx) == Some(conclusion);
    FreeAllPair(Var(0), fx);
    FreeAllPair(Var(0), Var(1));
    assert Free(fx) == {0};
    assert Free(conclusion) == {0};
    assert Free(q) == {0};
    assert Nest(All, [0][1..], Binary(Imply, q, conclusion)) == Some(Binary(Imply, q, conclusion));
  }

  // ---------------------------------------------------------------------
  // dual
  // ---------------------------------------------------------------------

  function Opposite(q: Quantifier): Quantifier
    requires q != UniquelyExist
  {
    if q == All then Exist else All
  }

  /** The duality law for one quantifier: not (Q x, P) iff (Q' x, not P),
      Q' the opposite quantifier. */
  function DeMorgan(q: Quantifier, x: nat, p: Node): Node
    requires q != UniquelyExist
  {
    Binary(Iff, Not(Quant(q, x, p)), Quant(Opposite(q), x, Not(p)))
  }

  function Swap(n: Node): Node
    requires n.Binary?
  {
    Binary(n.op, n.right, n.left)
  }

  /** One side of the law: a negated All or Exist. */
  predicate NegatedQuantifier(n: Node)
  {
    n.Not? && n.body.Quant? && n.body.kind != UniquelyExist
  }

  /** The other side: the opposite quantifier over a negation. */
  predicate OppositeOverNegation(n: Node, q: Quantifier)
    requires q != UniquelyExist
  {
    n.Quant? && n.kind == Opposite(q) && n.statement.Not?
  }

  /** The check dual runs: with the negation on the left the shapes, the
      bound variables and the bodies are compared; with the negation on the
      right only the shapes are. */
  predicate DualAsWritten(n: Node)
  {
    n.Binary? && n.op == Iff &&
    if n.left.Not? then
      NegatedQuantifier(n.left) && OppositeOverNegation(n.right, n.left.body.kind) &&
      n.left.body.bound == n.right.bound && n.left.body.statement == n.right.statement.body
    else
      NegatedQuantifier(n.right) && OppositeOverNegation(n.left, n.right.body.kind)
  }

  /** The intended check: the same comparison on both sides. */
  predicate Dual(n: Node)
  {
    n.Binary? && n.op == Iff &&
    if n.left.Not? then
      NegatedQuantifier(n.left) && OppositeOverNegation(n.right, n.left.body.kind) &&
      n.left.body.bound == n.right.bound && n.left.body.statement == n.right.statement.body
    else
      NegatedQuantifier(n.right) && OppositeOverNegation(n.left, n.right.body.kind) &&
      n.right.body.bound == n.left.bound && n.right.body.statement == n.left.statement.body
  }

  /** As written, dual accepts an equivalence between unrelated
      statements once the negation is on the right. */
  lemma DualAsWrittenUnrelated()
    ensures var n := Binary(Iff,
        Quant(Exist, 0, Not(Prop(Named("p"), [Var(0)]))),
        Not(Quant(All, 1, Prop(Named("q"), [Var(1)]))));
      Wf(n) && DualAsWritten(n) && !Dual(n)
  {
    assert [Var(0)][1..] == [];
    assert [Var(1)][1..] == [];
  }

  /** The intended check accepts exactly the instances of the law, in
      either order. */
  lemma DualIsDeMorgan(n: Node)
    ensures Dual(n) <==>
      (n.Binary? && n.left.Not? && n.left.body.Quant? && n.left.body.kind != UniquelyExist &&
       n == DeMorgan(n.left.body.kind, n.left.body.bound, n.left.body.statement)) ||
      (n.Binary? && !n.left.Not? && n.right.Not? && n.right.body.Quant? && n.right.body.kind != UniquelyExist &&
       n == Swap(DeMorgan(n.right.body.kind, n.right.body.bound, n.right.body.statement)))
  {
  }

  /** Every instance of the law passes the intended check. */
  lemma DeMorganIsDual(q: Quantifier, x: nat, p: Node)
    requires q != UniquelyExist
    ensures Dual(DeMorgan(q, x, p)) && Dual(Swap(DeMorgan(q, x, p)))
  {
  }

  /** The two checks agree when the negation is on the left, and the
      intended one never accepts what the written one refuses. */
  lemma DualAgreement(n: Node)
    ensures n.Binary? && n.left.Not? ==> (DualAsWritten(n) <==> Dual(n))
    ensures Dual(n) ==> DualAsWritten(n)
  {
  }
}
