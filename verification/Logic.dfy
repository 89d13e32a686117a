/**
 * The propositional layer behind the tautology rule: the logical form of a
 * formula (every maximal non-connective subformula replaced by a numbered
 * atom, the numbering shared across the reasons and the target), the
 * evaluation of a logical form under a truth assignment, and the
 * exhaustive check over all assignments.
 *
 * The rule's mapping from atoms to numbers is kept as the sequence of atoms
 * in the order they were first met: atom number i is the i-th entry.
 *
 * The main result, TautologyIsConsequence, says that the check accepts
 * exactly the targets that follow from the reasons in every valuation of
 * their atoms.
 */
module Logic {
  import opened Wrappers
  import opened Expr

  predicate IsConnective(n: Node)
  {
    n.Not? || n.Binary? || n.True? || n.False?
  }

  /** The maximal subformulas that are not connectives. */
  function Atoms(n: Node): set<Node>
  {
    match n
    case Not(p) => Atoms(p)
    case Binary(_, l, r) => Atoms(l) + Atoms(r)
    case True => {}
    case False => {}
    case _ => {n}
  }

  /** A logical form whose atom numbers are all below k, so that an
      assignment of k values gives every atom a value. */
  predicate Within(f: Node, k: nat)
  {
    match f
    case Prop(name, children) => name.Atom? && children == [] && name.index < k
    case Not(p) => Within(p, k)
    case Binary(_, l, r) => Within(l, k) && Within(r, k)
    case True => true
    case False => true
    case _ => false
  }

  lemma WithinMono(f: Node, k: nat, k': nat)
    requires Within(f, k) && k <= k'
    ensures Within(f, k')
  {
  }

  /** The number of an atom already met. */
  function IndexOf(atoms: seq<Node>, x: Node): (i: nat)
    requires x in atoms
    ensures i < |atoms| && atoms[i] == x
    ensures forall j | 0 <= j < i :: atoms[j] != x
  {
    if atoms[0] == x then 0 else 1 + IndexOf(atoms[1..], x)
  }

  /** The atom case of the logical form: the atom's number, a new one if
      it has none yet. */
  function Number(n: Node, atoms: seq<Node>): (r: (Node, seq<Node>))
    ensures atoms <= r.1 && n in r.1
    ensures forall x | x in r.1 :: x in atoms || x == n
    ensures Within(r.0, |r.1|)
    ensures r.0.Prop? && r.1[r.0.name.index] == n
    ensures forall j | 0 <= j < r.0.name.index :: r.1[j] != n
    ensures Distinct(atoms) ==> Distinct(r.1)
  {
    if n in atoms then (Prop(Atom(IndexOf(atoms, n)), []), atoms)
    else (Prop(Atom(|atoms|), []), atoms + [n])
  }

  /** Replaces each atom by its number, numbering atoms not met before
      after those already numbered; operands are visited left before right
      (assumption before conclusion). */
  function LogicalForm(n: Node, atoms: seq<Node>): (r: (Node, seq<Node>))
    ensures atoms <= r.1
    ensures forall x | x in Atoms(n) :: x in r.1
    ensures forall x | x in r.1 :: x in atoms || x in Atoms(n)
    ensures Within(r.0, |r.1|)
    ensures Distinct(atoms) ==> Distinct(r.1)
  {
    if n.Not? then
      var (p', m1) := LogicalForm(n.body, atoms);
      (Not(p'), m1)
    else if n.Binary? then
      var (l', m1) := LogicalForm(n.left, atoms);
      var (r', m2) := LogicalForm(n.right, m1);
      WithinMono(l', |m1|, |m2|);
      (Binary(n.op, l', r'), m2)
    else if n.True? || n.False? then (n, atoms)
    else Number(n, atoms)
  }

  /** The numbering the tautology rule grows in place while it forms the
      reasons and then the target: atom number i is atoms[i]. */
  class AtomTable {
    var atoms: seq<Node>

    constructor ()
      ensures atoms == []
    {
      atoms := [];
    }

    /** The logical form of n; an atom met for the first time gets the
        next number. */
    method Form(n: Node) returns (f: Node)
      modifies this
      ensures (f, atoms) == LogicalForm(n, old(atoms))
      decreases n
    {
      if n.Not? {
        var p := Form(n.body);
        f := Not(p);
      } else if n.Binary? {
        var l := Form(n.left);
        var r := Form(n.right);
        f := Binary(n.op, l, r);
      } else if n.True? || n.False? {
        f := n;
      } else {
        if n !in atoms {
          atoms := atoms + [n];
        }
        f := Prop(Atom(IndexOf(atoms, n)), []);
      }
    }
  }

  function Combine(op: Connective, x: bool, y: bool): bool
  {
    match op
    case And => x && y
    case Or => x || y
    case Iff => x == y
    case Imply => y || !x
  }

  /** The value of a logical form; atom number i takes the value a[i]. */
  function Eval(f: Node, a: seq<bool>): bool
    requires Within(f, |a|)
  {
    match f
    case Prop(name, _) => a[name.index]
    case Not(p) => !Eval(p, a)
    case Binary(op, l, r) => Combine(op, Eval(l, a), Eval(r, a))
    case True => true
    case False => false
  }

  /** The reference semantics: the value of a formula when each atom takes
      the value a valuation gives it. */
  function Truth(n: Node, v: Node -> bool): bool
  {
    match n
    case Not(p) => !Truth(p, v)
    case Binary(op, l, r) => Combine(op, Truth(l, v), Truth(r, v))
    case True => true
    case False => false
    case _ => v(n)
  }

  /** The logical forms of the reasons, in order, numbered with one shared
      sequence of atoms. */
  function FormsFrom(reasons: seq<Node>, atoms: seq<Node>): (r: (seq<Node>, seq<Node>))
    ensures |r.0| == |reasons|
    ensures atoms <= r.1
    ensures forall i, x | 0 <= i < |reasons| && x in Atoms(reasons[i]) :: x in r.1
    ensures forall i | 0 <= i < |r.0| :: Within(r.0[i], |r.1|)
    ensures Distinct(atoms) ==> Distinct(r.1)
    decreases |reasons|
  {
    if reasons == [] then ([], atoms)
    else
      var last := |reasons| - 1;
      var (fs, m1) := FormsFrom(reasons[..last], atoms);
      var (f, m2) := LogicalForm(reasons[last], m1);
      assert forall i | 0 <= i < last :: reasons[..last][i] == reasons[i];
      assert forall i, x | 0 <= i < last && x in Atoms(reasons[i]) :: x in m2 by {
        forall i, x | 0 <= i < last && x in Atoms(reasons[i]) ensures x in m2 {
          assert x in Atoms(reasons[..last][i]);
          PrefixIn(m1, m2, x);
        }
      }
      assert forall i | 0 <= i < last :: Within(fs[i], |m2|) by {
        forall i | 0 <= i < last ensures Within(fs[i], |m2|) {
          WithinMono(fs[i], |m1|, |m2|);
        }
      }
      (fs + [f], m2)
  }

  lemma PrefixIn(small: seq<Node>, big: seq<Node>, x: Node)
    requires small <= big && x in small
    ensures x in big
  {
    var k :| 0 <= k < |small| && small[k] == x;
    assert big[k] == x;
  }

  predicate AllTrue(forms: seq<Node>, a: seq<bool>)
    requires forall i | 0 <= i < |forms| :: Within(forms[i], |a|)
  {
    forall i | 0 <= i < |forms| :: Eval(forms[i], a)
  }

  /** Every assignment of k values that makes the forms true makes the
      target true. */
  ghost predicate Entails(forms: seq<Node>, target: Node, k: nat)
    requires forall i | 0 <= i < |forms| :: Within(forms[i], k)
    requires Within(target, k)
  {
    forall a: seq<bool> | |a| == k && AllTrue(forms, a) :: Eval(target, a)
  }

  /** What the tautology rule checks, given the reasons' trees. */
  ghost predicate TautologyHolds(reasons: seq<Node>, target: Node)
  {
    var (forms, m) := FormsFrom(reasons, []);
    var (t, m') := LogicalForm(target, m);
    assert forall i | 0 <= i < |forms| :: Within(forms[i], |m'|) by {
      forall i | 0 <= i < |forms| ensures Within(forms[i], |m'|) {
        WithinMono(forms[i], |m|, |m'|);
      }
    }
    Entails(forms, t, |m'|)
  }

  predicate AllHold(reasons: seq<Node>, v: Node -> bool)
  {
    forall i | 0 <= i < |reasons| :: Truth(reasons[i], v)
  }

  /** The target is a propositional consequence of the reasons. */
  ghost predicate Follows(reasons: seq<Node>, target: Node)
  {
    forall v: Node -> bool :: AllHold(reasons, v) ==> Truth(target, v)
  }

  // ---------------------------------------------------------------------
  // The exhaustive check
  // ---------------------------------------------------------------------

  function Pow2(k: nat): (r: nat)
    ensures r >= 1
  {
    if k == 0 then 1 else 2 * Pow2(k - 1)
  }

  /** Bit i of the case number, the value `case_index & (1 << i)` tests. */
  function Bit(c: nat, i: nat): bool
  {
    if i == 0 then c % 2 == 1 else Bit(c / 2, i - 1)
  }

  /** The truth assignment of case number c. */
  function Bits(c: nat, k: nat): (r: seq<bool>)
    ensures |r| == k
  {
    seq(k, i requires 0 <= i < k => Bit(c, i))
  }

  /** The case number of an assignment: its values as binary digits, the
      first the least significant. */
  function Encode(a: seq<bool>): nat
  {
    if a == [] then 0 else (if a[0] then 1 else 0) + 2 * Encode(a[1..])
  }

  /** Every assignment is the assignment of some case number below 2^k. */
  lemma {:induction false} EncodeBits(a: seq<bool>)
    ensures Encode(a) < Pow2(|a|)
    ensures Bits(Encode(a), |a|) == a
  {
    if a != [] {
      var rest := a[1..];
      EncodeBits(rest);
      var e := Encode(a);
      assert e / 2 == Encode(rest);
      forall i | 0 <= i < |a| ensures Bit(e, i) == a[i] {
        if i > 0 {
          assert Bit(Encode(rest), i - 1) == rest[i - 1];
        }
      }
    }
  }

  /** The tautology rule's loops: every case number below 2^k is turned
      into an assignment; a case that makes every reason true must make the
      target true, or the check fails. */
  method CheckEntails(forms: seq<Node>, target: Node, k: nat) returns (ok: bool)
    requires forall i | 0 <= i < |forms| :: Within(forms[i], k)
    requires Within(target, k)
    ensures ok <==> Entails(forms, target, k)
  {
    var caseNumber := Pow2(k);
    var c := 0;
    while c < caseNumber
      invariant c <= caseNumber
      invariant forall c' | 0 <= c' < c :: AllTrue(forms, Bits(c', k)) ==> Eval(target, Bits(c', k))
    {
      var assign: seq<bool> := [];
      var i := 0;
      while i < k
        invariant i <= k
        invariant assign == Bits(c, k)[..i]
      {
        assign := assign + [Bit(c, i)];
        i := i + 1;
      }
      assert assign == Bits(c, k);
      var consider := true;
      var j := 0;
      while j < |forms|
        invariant j <= |forms|
        invariant consider <==> forall j' | 0 <= j' < j :: Eval(forms[j'], assign)
      {
        if !Eval(forms[j], assign) {
          consider := false;
          break;
        }
        j := j + 1;
      }
      assert consider <==> AllTrue(forms, assign);
      if consider && !Eval(target, assign) {
        return false;
      }
      c := c + 1;
    }
    forall a: seq<bool> | |a| == k && AllTrue(forms, a)
      ensures Eval(target, a)
    {
      EncodeBits(a);
    }
    return true;
  }

  // ---------------------------------------------------------------------
  // Soundness and completeness of the check
  // ---------------------------------------------------------------------

  /** The valuation a truth assignment induces through the numbering. */
  function Valuation(atoms: seq<Node>, a: seq<bool>): Node -> bool
  {
    x => x in atoms && IndexOf(atoms, x) < |a| && a[IndexOf(atoms, x)]
  }

  /** The truth assignment a valuation induces through the numbering. */
  function Assignment(atoms: seq<Node>, v: Node -> bool): (a: seq<bool>)
    ensures |a| == |atoms|
    ensures forall i | 0 <= i < |atoms| :: a[i] == v(atoms[i])
  {
    seq(|atoms|, i requires 0 <= i < |atoms| => v(atoms[i]))
  }

  lemma {:induction false} TruthAgree(n: Node, v1: Node -> bool, v2: Node -> bool)
    requires forall x | x in Atoms(n) :: v1(x) == v2(x)
    ensures Truth(n, v1) == Truth(n, v2)
  {
    match n
    case Not(p) => TruthAgree(p, v1, v2);
    case Binary(op, l, r) =>
      TruthAgree(l, v1, v2);
      TruthAgree(r, v1, v2);
    case True =>
    case False =>
    case _ =>
      assert n in Atoms(n);
  }

  /** A logical form evaluates under an assignment as its formula does
      under the valuation that assignment induces through any numbering
      extending the one the form was built with. */
  lemma {:induction false} LogicalFormAbstracts(n: Node, atoms: seq<Node>, big: seq<Node>, a: seq<bool>)
    requires LogicalForm(n, atoms).1 <= big && |big| <= |a|
    ensures Within(LogicalForm(n, atoms).0, |a|)
    ensures Eval(LogicalForm(n, atoms).0, a) == Truth(n, Valuation(big, a))
  {
    var (f, m) := LogicalForm(n, atoms);
    WithinMono(f, |m|, |a|);
    if n.Not? {
      LogicalFormAbstracts(n.body, atoms, big, a);
    } else if n.Binary? {
      var m1 := LogicalForm(n.left, atoms).1;
      LogicalFormAbstracts(n.left, atoms, big, a);
      LogicalFormAbstracts(n.right, m1, big, a);
    } else if !(n.True? || n.False?) {
      var i := f.name.index;
      assert big[i] == n;
      assert forall j | 0 <= j < i :: big[j] != n by {
        forall j | 0 <= j < i ensures big[j] != n {
          assert big[j] == m[j];
        }
      }
      assert IndexOf(big, n) == i;
    }
  }

  lemma {:induction false} FormsAbstract(reasons: seq<Node>, atoms: seq<Node>, big: seq<Node>, a: seq<bool>)
    requires FormsFrom(reasons, atoms).1 <= big && |big| <= |a|
    ensures forall i | 0 <= i < |reasons| :: Within(FormsFrom(reasons, atoms).0[i], |a|)
    ensures forall i | 0 <= i < |reasons| ::
      Eval(FormsFrom(reasons, atoms).0[i], a) == Truth(reasons[i], Valuation(big, a))
    decreases |reasons|
  {
    if reasons != [] {
      var last := |reasons| - 1;
      var m1 := FormsFrom(reasons[..last], atoms).1;
      FormsAbstract(reasons[..last], atoms, big, a);
      LogicalFormAbstracts(reasons[last], m1, big, a);
      assert forall i | 0 <= i < last :: reasons[..last][i] == reasons[i];
    }
  }

  lemma AssignmentAgrees(atoms: seq<Node>, v: Node -> bool, x: Node)
    requires x in atoms
    ensures Valuation(atoms, Assignment(atoms, v))(x) == v(x)
  {
    var i := IndexOf(atoms, x);
  }

  lemma TautologySound(reasons: seq<Node>, target: Node, v: Node -> bool)
    requires TautologyHolds(reasons, target) && AllHold(reasons, v)
    ensures Truth(target, v)
  {
    var (forms, m) := FormsFrom(reasons, []);
    var (t, big) := LogicalForm(target, m);
    var a := Assignment(big, v);
    var w := Valuation(big, a);
    FormsAbstract(reasons, [], big, a);
    LogicalFormAbstracts(target, m, big, a);
    forall i | 0 <= i < |forms| ensures Eval(forms[i], a) {
      forall x | x in Atoms(reasons[i]) ensures w(x) == v(x) {
        PrefixIn(m, big, x);
        AssignmentAgrees(big, v, x);
      }
      TruthAgree(reasons[i], w, v);
    }
    assert AllTrue(forms, a);
    forall x | x in Atoms(target) ensures w(x) == v(x) {
      AssignmentAgrees(big, v, x);
    }
    TruthAgree(target, w, v);
  }

  lemma TautologyComplete(reasons: seq<Node>, target: Node)
    requires Follows(reasons, target)
    ensures TautologyHolds(reasons, target)
  {
    var (forms, m) := FormsFrom(reasons, []);
    var (t, big) := LogicalForm(target, m);
    forall i | 0 <= i < |forms| ensures Within(forms[i], |big|) {
      WithinMono(forms[i], |m|, |big|);
    }
    forall a: seq<bool> | |a| == |big| && AllTrue(forms, a)
      ensures Eval(t, a)
    {
      var w := Valuation(big, a);
      FormsAbstract(reasons, [], big, a);
      LogicalFormAbstracts(target, m, big, a);
      assert AllHold(reasons, w);
    }
  }

  /** The tautology rule accepts exactly the propositional consequences of
      its reasons: quantified formulas, properties and other non-connective
      subformulas are atoms, equal trees being the same atom. */
  lemma TautologyIsConsequence(reasons: seq<Node>, target: Node)
    ensures TautologyHolds(reasons, target) <==> Follows(reasons, target)
  {
    if TautologyHolds(reasons, target) {
      forall v: Node -> bool | AllHold(reasons, v)
        ensures Truth(target, v)
      {
        TautologySound(reasons, target, v);
      }
    }
    if Follows(reasons, target) {
      TautologyComplete(reasons, target);
    }
  }

  // ---------------------------------------------------------------------
  // Instances
  // ---------------------------------------------------------------------

  /** From P and P implies Q the rule gives Q. */
  lemma ModusPonens(p: Node, q: Node)
    ensures TautologyHolds([p, Binary(Imply, p, q)], q)
  {
    var reasons := [p, Binary(Imply, p, q)];
    forall v: Node -> bool | AllHold(reasons, v)
      ensures Truth(q, v)
    {
      assert Truth(reasons[0], v) && Truth(reasons[1], v);
    }
    assert Follows(reasons, q);
    TautologyIsConsequence(reasons, q);
  }

  /** Excluded middle needs no reason. */
  lemma ExcludedMiddle(p: Node)
    ensures TautologyHolds([], Binary(Or, p, Not(p)))
  {
    var target := Binary(Or, p, Not(p));
    forall v: Node -> bool
      ensures Truth(target, v)
    {
      assert Truth(target, v) == (Truth(p, v) || !Truth(p, v));
    }
    assert Follows([], target);
    TautologyIsConsequence([], target);
  }

  /** Every formula is equivalent to itself, with no reason. */
  lemma IffSelf(p: Node)
    ensures TautologyHolds([], Binary(Iff, p, p))
  {
    var target := Binary(Iff, p, p);
    forall v: Node -> bool
      ensures Truth(target, v)
    {
      assert Truth(target, v) == (Truth(p, v) == Truth(p, v));
    }
    assert Follows([], target);
    TautologyIsConsequence([], target);
  }

  /** A formula and its negation give anything. */
  lemma Explosion(p: Node, q: Node)
    ensures TautologyHolds([p, Not(p)], q)
  {
    var reasons := [p, Not(p)];
    forall v: Node -> bool
      ensures !AllHold(reasons, v)
    {
      assert reasons[0] == p && reasons[1] == Not(p);
    }
    assert Follows(reasons, q);
    TautologyIsConsequence(reasons, q);
  }

  /** False gives anything. */
  lemma FalseGivesAnything(q: Node)
    ensures TautologyHolds([False], q)
  {
    var reasons := [False];
    forall v: Node -> bool
      ensures !AllHold(reasons, v)
    {
      assert reasons[0] == False;
    }
    assert Follows(reasons, q);
    TautologyIsConsequence(reasons, q);
  }

  /** An atom on its own is never a tautology: the rule cannot prove a
      quantified formula or a property from nothing. */
  lemma AtomNotTautology(p: Node)
    requires !IsConnective(p)
    ensures !TautologyHolds([], p)
  {
    TautologyIsConsequence([], p);
    var v: Node -> bool := x => false;
    assert AllHold([], v) && !Truth(p, v);
  }
}
