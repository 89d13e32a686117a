/**
 * The check behind the replacement rule: two formulas are interchangeable
 * with respect to two terms x and y when they are equal, or are x and y in
 * either order, or have the same shape with interchangeable parts.
 *
 * InterchangeableAsWritten is the check the rule runs. Two things in it
 * differ from what the rule is for (see the README's findings): any two
 * variables pass, and a pair of nodes that have a formula or a variable as
 * a part (a quantifier, a negation, a binary connective) never passes
 * unless the two nodes are equal, because comparing such a part against
 * "missing" goes through the overloaded equality and fails. Interchangeable
 * is the intended check.
 */
module Interchange {
  import opened Expr

  /** One of the three cases that end the comparison at once. */
  predicate SameOrSwapped(a: Node, b: Node, x: Node, y: Node)
  {
    a == b || (a == x && b == y) || (a == y && b == x)
  }

  /** The check as the rule runs it. */
  predicate InterchangeableAsWritten(a: Node, b: Node, x: Node, y: Node)
    decreases a, 1
  {
    SameOrSwapped(a, b, x, y) || PartsAsWritten(a, b, x, y)
  }

  /** The comparison part by part, as the rule runs it: equal tags, equal
      symbols, equally long argument lists. */
  predicate PartsAsWritten(a: Node, b: Node, x: Node, y: Node)
    decreases a, 0
  {
    match a
    case Var(_) => b.Var?
    case Func(f, cs) =>
      b.Func? && b.name == f && |b.children| == |cs| &&
      forall i | 0 <= i < |cs| :: InterchangeableAsWritten(cs[i], b.children[i], x, y)
    case Prop(p, cs) =>
      b.Prop? && b.name == p && |b.children| == |cs| &&
      forall i | 0 <= i < |cs| :: InterchangeableAsWritten(cs[i], b.children[i], x, y)
    case True => b.True?
    case False => b.False?
    case _ => false
  }

  /** The check as intended: variables must be the same or be x and y;
      every connective and quantifier is compared part by part. Two
      quantifiers must bind the same variable, and one that binds a variable
      of x or y is refused, so no swap happens where the equality's own
      variables would be captured. */
  predicate Interchangeable(a: Node, b: Node, x: Node, y: Node)
    decreases a, 1
  {
    SameOrSwapped(a, b, x, y) || Parts(a, b, x, y)
  }

  /** The intended comparison part by part. */
  predicate Parts(a: Node, b: Node, x: Node, y: Node)
    decreases a, 0
  {
    match a
    case Var(_) => false
    case Func(f, cs) =>
      b.Func? && b.name == f && |b.children| == |cs| &&
      forall i | 0 <= i < |cs| :: Interchangeable(cs[i], b.children[i], x, y)
    case Prop(p, cs) =>
      b.Prop? && b.name == p && |b.children| == |cs| &&
      forall i | 0 <= i < |cs| :: Interchangeable(cs[i], b.children[i], x, y)
    case Quant(q, v, s) =>
      b.Quant? && b.kind == q && b.bound == v && v !in Free(x) + Free(y) &&
      Interchangeable(s, b.statement, x, y)
    case Not(p) => b.Not? && Interchangeable(p, b.body, x, y)
    case Binary(op, l, r) =>
      b.Binary? && b.op == op && Interchangeable(l, b.left, x, y) && Interchangeable(r, b.right, x, y)
    case True => false
    case False => false
  }

  /** The rule's check does not depend on which formula is the target and
      which the reason. */
  lemma {:induction false} AsWrittenSymmetric(a: Node, b: Node, x: Node, y: Node)
    requires InterchangeableAsWritten(a, b, x, y)
    ensures InterchangeableAsWritten(b, a, x, y)
  {
    if !SameOrSwapped(a, b, x, y) && (a.Func? || a.Prop?) {
      var cs := a.children;
      forall i | 0 <= i < |cs| ensures InterchangeableAsWritten(b.children[i], cs[i], x, y) {
        AsWrittenSymmetric(cs[i], b.children[i], x, y);
      }
    }
  }

  /** The rule's check lets any variable stand for any other: with the
      equality t = t it still relates set(v0) and set(v2). */
  lemma AsWrittenAnyVariable()
    ensures var t := Var(1);
      InterchangeableAsWritten(Prop(Named("set"), [Var(0)]), Prop(Named("set"), [Var(2)]), t, t)
  {
    var a := Prop(Named("set"), [Var(0)]);
    var b := Prop(Named("set"), [Var(2)]);
    assert !SameOrSwapped(a, b, Var(1), Var(1));
    assert InterchangeableAsWritten(a.children[0], b.children[0], Var(1), Var(1));
  }

  /** The rule's check refuses to move an equality under a negation, even
      one of a single property. */
  lemma AsWrittenRejectsNegation()
    ensures var p := Prop(Named("p"), [Var(0)]);
      var q := Prop(Named("p"), [Var(1)]);
      !InterchangeableAsWritten(Not(p), Not(q), Var(0), Var(1)) &&
      Interchangeable(Not(p), Not(q), Var(0), Var(1))
  {
    var p := Prop(Named("p"), [Var(0)]);
    var q := Prop(Named("p"), [Var(1)]);
    assert Interchangeable(p.children[0], q.children[0], Var(0), Var(1));
  }

  /** With the equality t = t the intended check relates a formula only to
      itself. */
  lemma {:induction false} InterchangeableIdentity(a: Node, b: Node, t: Node)
    requires Interchangeable(a, b, t, t)
    ensures a == b
  {
    if (a.Func? && b.Func?) || (a.Prop? && b.Prop?) {
      if |a.children| == |b.children| {
        forall i | 0 <= i < |a.children| ensures a.children[i] == b.children[i] {
          if Interchangeable(a.children[i], b.children[i], t, t) {
            InterchangeableIdentity(a.children[i], b.children[i], t);
          }
        }
      }
    } else if a.Quant? && b.Quant? {
      if Interchangeable(a.statement, b.statement, t, t) {
        InterchangeableIdentity(a.statement, b.statement, t);
      }
    } else if a.Not? && b.Not? {
      if Interchangeable(a.body, b.body, t, t) {
        InterchangeableIdentity(a.body, b.body, t);
      }
    } else if a.Binary? && b.Binary? {
      if Interchangeable(a.left, b.left, t, t) && Interchangeable(a.right, b.right, t, t) {
        InterchangeableIdentity(a.left, b.left, t);
        InterchangeableIdentity(a.right, b.right, t);
      }
    }
  }

  /** The intended check is symmetric in the two formulas. */
  lemma {:induction false} InterchangeableSymmetric(a: Node, b: Node, x: Node, y: Node)
    requires Interchangeable(a, b, x, y)
    ensures Interchangeable(b, a, x, y)
    decreases a, 1
  {
    if !SameOrSwapped(a, b, x, y) {
      if a.Func? || a.Prop? {
        ChildrenSymmetric(a, b, x, y);
      } else if a.Quant? {
        QuantifierSymmetric(a, b, x, y);
      } else if a.Not? {
        NegationSymmetric(a, b, x, y);
      } else if a.Binary? {
        BinarySymmetric(a, b, x, y);
      }
    }
  }

  lemma {:induction false} QuantifierSymmetric(a: Node, b: Node, x: Node, y: Node)
    requires a.Quant?
    requires Interchangeable(a, b, x, y) && !SameOrSwapped(a, b, x, y)
    ensures Interchangeable(b, a, x, y)
    decreases a, 0
  {
    InterchangeableSymmetric(a.statement, b.statement, x, y);
  }

  lemma {:induction false} NegationSymmetric(a: Node, b: Node, x: Node, y: Node)
    requires a.Not?
    requires Interchangeable(a, b, x, y) && !SameOrSwapped(a, b, x, y)
    ensures Interchangeable(b, a, x, y)
    decreases a, 0
  {
    InterchangeableSymmetric(a.body, b.body, x, y);
  }

  lemma {:induction false} BinarySymmetric(a: Node, b: Node, x: Node, y: Node)
    requires a.Binary?
    requires Interchangeable(a, b, x, y) && !SameOrSwapped(a, b, x, y)
    ensures Interchangeable(b, a, x, y)
    decreases a, 0
  {
    InterchangeableSymmetric(a.left, b.left, x, y);
    InterchangeableSymmetric(a.right, b.right, x, y);
  }

  lemma {:induction false} ChildrenSymmetric(a: Node, b: Node, x: Node, y: Node)
    requires a.Func? || a.Prop?
    requires Interchangeable(a, b, x, y) && !SameOrSwapped(a, b, x, y)
    ensures Interchangeable(b, a, x, y)
    decreases a, 0
  {
    var cs := a.children;
    forall i | 0 <= i < |cs| ensures Interchangeable(b.children[i], cs[i], x, y) {
      InterchangeableSymmetric(cs[i], b.children[i], x, y);
    }
  }

  /** The intended check refuses to swap under a quantifier that captures
      a variable of the equality. */
  lemma InterchangeableRefusesCapture()
    ensures var eq01 := Prop(Named("equal"), [Var(0), Var(1)]);
      var eq11 := Prop(Named("equal"), [Var(1), Var(1)]);
      !Interchangeable(Quant(Exist, 0, Not(eq01)), Quant(Exist, 1, Not(eq11)), Var(0), Var(1)) &&
      !Interchangeable(Quant(Exist, 1, Not(eq01)), Quant(Exist, 1, Not(eq11)), Var(0), Var(1))
  {
  }

  /** What the replacement rule is for: putting x and then y for the same
      variable of one formula, where neither is captured, gives two
      interchangeable formulas. */
  lemma {:induction false} InterchangeableInContext(n: Node, v: nat, x: Node, y: Node)
    requires WellSorted(n) && v !in Bounded(n) && Bounded(n) !! Free(x) + Free(y)
    requires Substitute(n, v, x).Some? && Substitute(n, v, y).Some?
    ensures Interchangeable(Substitute(n, v, x).value, Substitute(n, v, y).value, x, y)
    decreases n, 1
  {
    if n.Func? || n.Prop? {
      ChildrenInContext(n, v, x, y);
    } else if n.Quant? {
      QuantifierInContext(n, v, x, y);
    } else if n.Not? {
      InterchangeableInContext(n.body, v, x, y);
    } else if n.Binary? {
      InterchangeableInContext(n.left, v, x, y);
      InterchangeableInContext(n.right, v, x, y);
    }
  }

  lemma {:induction false} QuantifierInContext(n: Node, v: nat, x: Node, y: Node)
    requires n.Quant?
    requires WellSorted(n) && v !in Bounded(n) && Bounded(n) !! Free(x) + Free(y)
    requires Substitute(n, v, x).Some? && Substitute(n, v, y).Some?
    ensures Interchangeable(Substitute(n, v, x).value, Substitute(n, v, y).value, x, y)
    decreases n, 0
  {
    InterchangeableInContext(n.statement, v, x, y);
  }

  lemma {:induction false} ChildrenInContext(n: Node, v: nat, x: Node, y: Node)
    requires n.Func? || n.Prop?
    requires WellSorted(n)
    requires Substitute(n, v, x).Some? && Substitute(n, v, y).Some?
    ensures Interchangeable(Substitute(n, v, x).value, Substitute(n, v, y).value, x, y)
    decreases n, 0
  {
    var a := Substitute(n, v, x).value;
    var b := Substitute(n, v, y).value;
    var cs := n.children;
    forall i | 0 <= i < |cs| ensures Interchangeable(a.children[i], b.children[i], x, y) {
      ArgumentInContext(cs[i], v, x, y);
    }
  }

  lemma {:induction false} ArgumentInContext(c: Node, v: nat, x: Node, y: Node)
    requires IsTerm(c)
    requires Substitute(c, v, x).Some? && Substitute(c, v, y).Some?
    ensures Interchangeable(Substitute(c, v, x).value, Substitute(c, v, y).value, x, y)
    decreases c, 2
  {
    TermWellSorted(c);
    InterchangeableInContext(c, v, x, y);
  }
}
