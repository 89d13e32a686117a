/**
 * The expression language of the kernel: a single tagged tree type for terms
 * and formulas, the `free` and `bounded` variable sets the constructor
 * computes, the binder check it enforces, substitution, and the builders
 * for nested quantifiers and tuples.
 *
 * Node equality is Dafny's structural datatype equality; math_up compares
 * structural hashes, which this model takes to be collision-free.
 */
module Expr {
  import opened Wrappers

  /** A function or property symbol: a user's name, or the number the
      tautology rule gives to an atom. */
  datatype Name = Named(text: string) | Atom(index: nat)

  datatype Quantifier = All | Exist | UniquelyExist

  /** Imply keeps its operands in `left` (the assumption) and `right`
      (the conclusion). */
  datatype Connective = And | Or | Iff | Imply

  /** A variable is its identity alone; the witness a `let` records for it
      is kept by the proof session, outside the tree. */
  datatype Node =
    | Var(id: nat)
    | Func(name: Name, children: seq<Node>)
    | Prop(name: Name, children: seq<Node>)
    | Quant(kind: Quantifier, bound: nat, statement: Node)
    | Not(body: Node)
    | Binary(op: Connective, left: Node, right: Node)
    | True
    | False

  // ---------------------------------------------------------------------
  // Variable sets computed by the constructor
  // ---------------------------------------------------------------------

  /** Identities occurring unbound. */
  function Free(n: Node): set<nat>
  {
    match n
    case Var(id) => {id}
    case Func(_, cs) => FreeAll(cs)
    case Prop(_, cs) => FreeAll(cs)
    case Quant(_, b, s) => Free(s) - {b}
    case Not(p) => Free(p)
    case Binary(_, l, r) => Free(l) + Free(r)
    case True => {}
    case False => {}
  }

  function FreeAll(cs: seq<Node>): set<nat>
  {
    if cs == [] then {} else Free(cs[0]) + FreeAll(cs[1..])
  }

  /** Identities bound by some quantifier. A function or property
      application starts from the empty set and does not collect the
      binders of its arguments. */
  function Bounded(n: Node): set<nat>
  {
    match n
    case Var(_) => {}
    case Func(_, _) => {}
    case Prop(_, _) => {}
    case Quant(_, b, s) => Bounded(s) + {b}
    case Not(p) => Bounded(p)
    case Binary(_, l, r) => Bounded(l) + Bounded(r)
    case True => {}
    case False => {}
  }

  /** Every identity written anywhere in the tree, binders included. */
  function Occurs(n: Node): set<nat>
  {
    match n
    case Var(id) => {id}
    case Func(_, cs) => OccursAll(cs)
    case Prop(_, cs) => OccursAll(cs)
    case Quant(_, b, s) => Occurs(s) + {b}
    case Not(p) => Occurs(p)
    case Binary(_, l, r) => Occurs(l) + Occurs(r)
    case True => {}
    case False => {}
  }

  function OccursAll(cs: seq<Node>): set<nat>
  {
    if cs == [] then {} else Occurs(cs[0]) + OccursAll(cs[1..])
  }

  /** The constructor's binder check: the bound identity occurs free in the
      body and is not already bound there. */
  predicate Binds(bound: nat, statement: Node)
  {
    bound in Free(statement) && bound !in Bounded(statement)
  }

  /** A tree every quantifier of which passed the binder check. The
      constructor builds nothing else. */
  predicate Wf(n: Node)
  {
    match n
    case Var(_) => true
    case Func(_, cs) => forall i | 0 <= i < |cs| :: Wf(cs[i])
    case Prop(_, cs) => forall i | 0 <= i < |cs| :: Wf(cs[i])
    case Quant(_, b, s) => Wf(s) && Binds(b, s)
    case Not(p) => Wf(p)
    case Binary(_, l, r) => Wf(l) && Wf(r)
    case True => true
    case False => true
  }

  type WfNode = n: Node | Wf(n) witness True

  /** Formulas, as opposed to terms (variables and function applications). */
  predicate IsSentence(n: Node)
  {
    !(n.Var? || n.Func?)
  }

  predicate IsTerm(n: Node)
  {
    match n
    case Var(_) => true
    case Func(_, cs) => forall i | 0 <= i < |cs| :: IsTerm(cs[i])
    case _ => false
  }

  /** Function and property arguments are terms. The constructor does not
      check this; the lemmas that need it say so. */
  predicate WellSorted(n: Node)
  {
    match n
    case Var(_) => true
    case Func(_, cs) => forall i | 0 <= i < |cs| :: IsTerm(cs[i])
    case Prop(_, cs) => forall i | 0 <= i < |cs| :: IsTerm(cs[i])
    case Quant(_, _, s) => WellSorted(s)
    case Not(p) => WellSorted(p)
    case Binary(_, l, r) => WellSorted(l) && WellSorted(r)
    case True => true
    case False => true
  }

  /** Same tag, and for applications the same symbol and arity. */
  predicate SameShape(a: Node, b: Node)
  {
    match a
    case Var(_) => b.Var?
    case Func(f, cs) => b.Func? && b.name == f && |b.children| == |cs|
    case Prop(p, cs) => b.Prop? && b.name == p && |b.children| == |cs|
    case Quant(q, _, _) => b.Quant? && b.kind == q
    case Not(_) => b.Not?
    case Binary(op, _, _) => b.Binary? && b.op == op
    case True => b.True?
    case False => b.False?
  }

  // ---------------------------------------------------------------------
  // The quantifier constructor
  // ---------------------------------------------------------------------

  /** Building a quantifier node: refused unless the bound identity is free
      and not yet bound in the body; the bound identity moves from the free
      set to the bound set. */
  function Quantify(kind: Quantifier, bound: nat, statement: Node): (r: Option<Node>)
    ensures r.Some? <==> bound in Free(statement) && bound !in Bounded(statement)
    ensures r.Some? ==> r.value == Quant(kind, bound, statement)
    ensures r.Some? ==> Free(r.value) == Free(statement) - {bound}
    ensures r.Some? ==> Bounded(r.value) == Bounded(statement) + {bound}
    ensures r.Some? ==> Free(r.value) + Bounded(r.value) == Free(statement) + Bounded(statement)
    ensures r.Some? && Wf(statement) ==> Wf(r.value)
  {
    if Binds(bound, statement) then Some(Quant(kind, bound, statement)) else None
  }

  // ---------------------------------------------------------------------
  // Substitution
  // ---------------------------------------------------------------------

  /** Replaces every variable with identity `v` by `t`, binders included,
      and rebuilds every other node through the constructor, which may
      refuse a rebuilt quantifier. A binder that is replaced by something
      other than a variable is refused too. */
  function Substitute(n: Node, v: nat, t: Node): (r: Option<Node>)
    ensures r.Some? && !n.Var? ==> SameShape(n, r.value)
  {
    match n
    case Var(id) => Some(if id == v then t else n)
    case Func(f, cs) =>
      var cs' :- SubstituteAll(cs, v, t);
      Some(Func(f, cs'))
    case Prop(p, cs) =>
      var cs' :- SubstituteAll(cs, v, t);
      Some(Prop(p, cs'))
    case Quant(q, b, s) =>
      var b' :- if b != v then Some(b) else if t.Var? then Some(t.id) else None;
      var s' :- Substitute(s, v, t);
      Quantify(q, b', s')
    case Not(p) =>
      var p' :- Substitute(p, v, t);
      Some(Not(p'))
    case Binary(op, l, r) =>
      var l' :- Substitute(l, v, t);
      var r' :- Substitute(r, v, t);
      Some(Binary(op, l', r'))
    case True => Some(True)
    case False => Some(False)
  }

  function SubstituteAll(cs: seq<Node>, v: nat, t: Node): (r: Option<seq<Node>>)
    ensures r.Some? <==> forall i | 0 <= i < |cs| :: Substitute(cs[i], v, t).Some?
    ensures r.Some? ==> |r.value| == |cs|
    ensures r.Some? ==> forall i | 0 <= i < |cs| :: Substitute(cs[i], v, t) == Some(r.value[i])
  {
    if cs == [] then Some([])
    else
      var c :- Substitute(cs[0], v, t);
      var rest :- SubstituteAll(cs[1..], v, t);
      Some([c] + rest)
  }

  /** Substituting a variable by itself gives the tree back. */
  lemma {:induction false} SubstituteSelf(n: Node, x: nat)
    requires Wf(n)
    ensures Substitute(n, x, Var(x)) == Some(n)
  {
    match n
    case Var(_) =>
    case Func(f, cs) =>
      SubstituteAllSelf(cs, x);
    case Prop(p, cs) =>
      SubstituteAllSelf(cs, x);
    case Quant(q, b, s) =>
      SubstituteSelf(s, x);
    case Not(p) =>
      SubstituteSelf(p, x);
    case Binary(op, l, r) =>
      SubstituteSelf(l, x);
      SubstituteSelf(r, x);
    case True =>
    case False =>
  }

  lemma {:induction false} SubstituteAllSelf(cs: seq<Node>, x: nat)
    requires forall i | 0 <= i < |cs| :: Wf(cs[i])
    ensures SubstituteAll(cs, x, Var(x)) == Some(cs)
  {
    forall i | 0 <= i < |cs|
      ensures Substitute(cs[i], x, Var(x)) == Some(cs[i])
    {
      SubstituteSelf(cs[i], x);
    }
    var r := SubstituteAll(cs, x, Var(x));
    assert r.value == cs by {
      forall i | 0 <= i < |cs| ensures r.value[i] == cs[i] {
        assert Substitute(cs[i], x, Var(x)) == Some(r.value[i]);
      }
    }
  }

  /** Substituting an identity written nowhere in the tree gives the tree
      back. */
  lemma {:induction false} SubstituteUnused(n: Node, v: nat, t: Node)
    requires Wf(n) && v !in Occurs(n)
    ensures Substitute(n, v, t) == Some(n)
  {
    match n
    case Var(_) =>
    case Func(f, cs) =>
      SubstituteAllUnused(cs, v, t);
    case Prop(p, cs) =>
      SubstituteAllUnused(cs, v, t);
    case Quant(q, b, s) =>
      SubstituteUnused(s, v, t);
    case Not(p) =>
      SubstituteUnused(p, v, t);
    case Binary(op, l, r) =>
      SubstituteUnused(l, v, t);
      SubstituteUnused(r, v, t);
    case True =>
    case False =>
  }

  lemma {:induction false} SubstituteAllUnused(cs: seq<Node>, v: nat, t: Node)
    requires forall i | 0 <= i < |cs| :: Wf(cs[i])
    requires v !in OccursAll(cs)
    ensures SubstituteAll(cs, v, t) == Some(cs)
  {
    forall i | 0 <= i < |cs|
      ensures Substitute(cs[i], v, t) == Some(cs[i])
    {
      OccursAllAt(cs, i);
      SubstituteUnused(cs[i], v, t);
    }
    var r := SubstituteAll(cs, v, t);
    assert r.value == cs by {
      forall i | 0 <= i < |cs| ensures r.value[i] == cs[i] {
        assert Substitute(cs[i], v, t) == Some(r.value[i]);
      }
    }
  }

  lemma {:induction false} OccursAllAt(cs: seq<Node>, i: nat)
    requires i < |cs|
    ensures Occurs(cs[i]) <= OccursAll(cs)
    ensures Free(cs[i]) <= FreeAll(cs)
  {
    if i > 0 {
      OccursAllAt(cs[1..], i - 1);
    }
  }

  /** In a well-sorted tree the identities written are exactly the free and
      the bound ones. */
  lemma {:induction false} OccursWellSorted(n: Node)
    requires WellSorted(n)
    ensures Occurs(n) == Free(n) + Bounded(n)
  {
    match n
    case Var(_) =>
    case Func(f, cs) =>
      OccursAllTerms(cs);
    case Prop(p, cs) =>
      OccursAllTerms(cs);
    case Quant(q, b, s) =>
      OccursWellSorted(s);
    case Not(p) =>
      OccursWellSorted(p);
    case Binary(op, l, r) =>
      OccursWellSorted(l);
      OccursWellSorted(r);
    case True =>
    case False =>
  }

  lemma {:induction false} OccursTerm(t: Node)
    requires IsTerm(t)
    ensures Occurs(t) == Free(t) && Bounded(t) == {}
  {
    if t.Func? {
      OccursAllTerms(t.children);
    }
  }

  lemma {:induction false} OccursAllTerms(cs: seq<Node>)
    requires forall i | 0 <= i < |cs| :: IsTerm(cs[i])
    ensures OccursAll(cs) == FreeAll(cs)
  {
    if cs != [] {
      OccursTerm(cs[0]);
      OccursAllTerms(cs[1..]);
    }
  }

  /** Substituting an identity that is neither free nor bound in a
      well-sorted tree gives the tree back. */
  lemma SubstituteAbsent(n: Node, v: nat, t: Node)
    requires Wf(n) && WellSorted(n)
    requires v !in Free(n) + Bounded(n)
    ensures Substitute(n, v, t) == Some(n)
  {
    OccursWellSorted(n);
    SubstituteUnused(n, v, t);
  }

  lemma {:induction false} FreeBoundedOccur(n: Node)
    ensures Free(n) <= Occurs(n) && Bounded(n) <= Occurs(n)
  {
    match n
    case Var(_) =>
    case Func(f, cs) =>
      FreeAllOccur(cs);
    case Prop(p, cs) =>
      FreeAllOccur(cs);
    case Quant(q, b, s) =>
      FreeBoundedOccur(s);
    case Not(p) =>
      FreeBoundedOccur(p);
    case Binary(op, l, r) =>
      FreeBoundedOccur(l);
      FreeBoundedOccur(r);
    case True =>
    case False =>
  }

  lemma {:induction false} FreeAllOccur(cs: seq<Node>)
    ensures FreeAll(cs) <= OccursAll(cs)
  {
    if cs != [] {
      FreeBoundedOccur(cs[0]);
      FreeAllOccur(cs[1..]);
    }
  }

  /** Wherever the replaced identity was written, the identities of the
      replacement are written in the result. */
  lemma {:induction false} SubstituteOccurs(n: Node, v: nat, t: Node)
    requires Substitute(n, v, t).Some? && v in Occurs(n)
    ensures Occurs(t) <= Occurs(Substitute(n, v, t).value)
  {
    match n
    case Var(_) =>
    case Func(f, cs) =>
      SubstituteAllOccurs(cs, v, t);
    case Prop(p, cs) =>
      SubstituteAllOccurs(cs, v, t);
    case Quant(q, b, s) =>
      if v in Occurs(s) {
        SubstituteOccurs(s, v, t);
      }
    case Not(p) =>
      SubstituteOccurs(p, v, t);
    case Binary(op, l, r) =>
      if v in Occurs(l) {
        SubstituteOccurs(l, v, t);
      } else {
        SubstituteOccurs(r, v, t);
      }
    case True =>
    case False =>
  }

  lemma {:induction false} SubstituteAllOccurs(cs: seq<Node>, v: nat, t: Node)
    requires SubstituteAll(cs, v, t).Some? && v in OccursAll(cs)
    ensures Occurs(t) <= OccursAll(SubstituteAll(cs, v, t).value)
  {
    var rs := SubstituteAll(cs, v, t).value;
    assert SubstituteAll(cs[1..], v, t) == Some(rs[1..]);
    if v in Occurs(cs[0]) {
      SubstituteOccurs(cs[0], v, t);
    } else {
      SubstituteAllOccurs(cs[1..], v, t);
    }
  }

  lemma {:induction false} TermWellSorted(t: Node)
    requires IsTerm(t)
    ensures WellSorted(t) && Bounded(t) == {}
  {
  }

  /** The free identities after putting t for v, when v is free. */
  function FreeAfter(free: set<nat>, v: nat, t: Node): set<nat>
  {
    if v in free then free - {v} + Free(t) else free
  }

  /** Putting a variable or function term for an identity that is not a
      binder, where no binder would capture the term's free identities,
      always succeeds, keeps the binders and the well-formedness, and moves
      the term's free identities in where the identity was free. */
  lemma {:induction false} SubstituteCaptureFree(n: Node, v: nat, t: Node)
    requires Wf(n) && WellSorted(n) && v !in Bounded(n)
    requires Wf(t) && (t.Var? || t.Func?)
    requires Free(t) !! Bounded(n)
    ensures Substitute(n, v, t).Some?
    ensures Bounded(Substitute(n, v, t).value) == Bounded(n)
    ensures Free(Substitute(n, v, t).value) == FreeAfter(Free(n), v, t)
    ensures Wf(Substitute(n, v, t).value)
  {
    match n
    case Var(_) =>
    case Func(f, cs) =>
      SubstituteAllCaptureFree(cs, v, t);
    case Prop(p, cs) =>
      SubstituteAllCaptureFree(cs, v, t);
    case Quant(q, b, s) =>
      SubstituteCaptureFree(s, v, t);
    case Not(p) =>
      SubstituteCaptureFree(p, v, t);
    case Binary(op, l, r) =>
      SubstituteCaptureFree(l, v, t);
      SubstituteCaptureFree(r, v, t);
    case True =>
    case False =>
  }

  lemma {:induction false} SubstituteAllCaptureFree(cs: seq<Node>, v: nat, t: Node)
    requires forall i | 0 <= i < |cs| :: Wf(cs[i]) && IsTerm(cs[i])
    requires Wf(t) && (t.Var? || t.Func?)
    ensures SubstituteAll(cs, v, t).Some?
    ensures FreeAll(SubstituteAll(cs, v, t).value) == FreeAfter(FreeAll(cs), v, t)
    ensures forall i | 0 <= i < |cs| :: Wf(SubstituteAll(cs, v, t).value[i])
  {
    forall i | 0 <= i < |cs| ensures Substitute(cs[i], v, t).Some? {
      TermWellSorted(cs[i]);
      SubstituteCaptureFree(cs[i], v, t);
    }
    var rs := SubstituteAll(cs, v, t).value;
    forall i | 0 <= i < |cs| ensures Wf(rs[i]) {
      TermWellSorted(cs[i]);
      SubstituteCaptureFree(cs[i], v, t);
    }
    if cs != [] {
      TermWellSorted(cs[0]);
      SubstituteCaptureFree(cs[0], v, t);
      SubstituteAllCaptureFree(cs[1..], v, t);
      assert SubstituteAll(cs[1..], v, t) == Some(rs[1..]);
    }
  }

  // ---------------------------------------------------------------------
  // Nested quantifier builders and their inverse
  // ---------------------------------------------------------------------

  /** The tree the builders produce: the first bound outermost. */
  function Nest(kind: Quantifier, bounds: seq<nat>, statement: Node): Option<Node>
    decreases |bounds|
  {
    if bounds == [] then Some(statement)
    else
      var inner :- Nest(kind, bounds[1..], statement);
      Quantify(kind, bounds[0], inner)
  }

  predicate Distinct<T(==)>(s: seq<T>)
  {
    forall i, j | 0 <= i < j < |s| :: s[i] != s[j]
  }

  function Elems(s: seq<nat>): set<nat>
  {
    set i | 0 <= i < |s| :: s[i]
  }

  lemma ElemsCons(s: seq<nat>)
    requires s != []
    ensures Elems(s) == {s[0]} + Elems(s[1..])
  {
    forall x | x in Elems(s) ensures x in {s[0]} + Elems(s[1..]) {
      var i :| 0 <= i < |s| && s[i] == x;
      if i > 0 { assert s[1..][i - 1] == x; }
    }
    forall x | x in Elems(s[1..]) ensures x in Elems(s) {
      var i :| 0 <= i < |s[1..]| && s[1..][i] == x;
      assert s[i + 1] == x;
    }
  }

  lemma DistinctCons(s: seq<nat>)
    requires s != []
    ensures Distinct(s) <==> s[0] !in Elems(s[1..]) && Distinct(s[1..])
  {
    var rest := s[1..];
    if Distinct(s) {
      forall i | 0 <= i < |rest| ensures rest[i] != s[0] {
        assert rest[i] == s[i + 1];
      }
      forall i, j | 0 <= i < j < |rest| ensures rest[i] != rest[j] {
        assert rest[i] == s[i + 1] && rest[j] == s[j + 1];
      }
    }
    if s[0] !in Elems(rest) && Distinct(rest) {
      forall i, j | 0 <= i < j < |s| ensures s[i] != s[j] {
        assert s[j] == rest[j - 1];
        if i > 0 { assert s[i] == rest[i - 1]; }
      }
    }
  }

  predicate AllBind(bounds: seq<nat>, statement: Node)
  {
    forall i | 0 <= i < |bounds| :: Binds(bounds[i], statement)
  }

  lemma AllBindCons(bounds: seq<nat>, statement: Node)
    requires bounds != []
    ensures AllBind(bounds, statement) <==> Binds(bounds[0], statement) && AllBind(bounds[1..], statement)
  {
    if Binds(bounds[0], statement) && AllBind(bounds[1..], statement) {
      forall i | 0 < i < |bounds| ensures Binds(bounds[i], statement) {
        assert bounds[i] == bounds[1..][i - 1];
      }
    }
  }

  /** The builders succeed exactly when the bounds are distinct, all free in
      the body and none bound there; they move the bounds from the free set
      to the bound set. */
  lemma {:induction false} NestSucceeds(kind: Quantifier, bounds: seq<nat>, statement: Node)
    ensures Nest(kind, bounds, statement).Some? <==> Distinct(bounds) && AllBind(bounds, statement)
    ensures Nest(kind, bounds, statement).Some? ==>
      Free(Nest(kind, bounds, statement).value) == Free(statement) - Elems(bounds) &&
      Bounded(Nest(kind, bounds, statement).value) == Bounded(statement) + Elems(bounds)
    ensures Nest(kind, bounds, statement).Some? && Wf(statement) ==> Wf(Nest(kind, bounds, statement).value)
    decreases |bounds|
  {
    if bounds != [] {
      NestSucceeds(kind, bounds[1..], statement);
      ElemsCons(bounds);
      DistinctCons(bounds);
      AllBindCons(bounds, statement);
    }
  }

  /** A failure anywhere inside the nest is a failure of the whole. */
  lemma {:induction false} NestSuffixFails(kind: Quantifier, bounds: seq<nat>, statement: Node, i: nat)
    requires i <= |bounds| && Nest(kind, bounds[i..], statement).None?
    ensures Nest(kind, bounds, statement).None?
    decreases i
  {
    if i > 0 {
      assert bounds[1..][i - 1..] == bounds[i..];
      NestSuffixFails(kind, bounds[1..], statement, i - 1);
    }
  }

  /** `All`, `Exist` and `UniquelyExist`: wrap the statement in one
      quantifier per bound, the last bound innermost. */
  method BuildQuantifiers(kind: Quantifier, bounds: seq<nat>, statement: Node) returns (r: Option<Node>)
    ensures r == Nest(kind, bounds, statement)
  {
    var acc := statement;
    var i := |bounds|;
    while i > 0
      invariant 0 <= i <= |bounds|
      invariant Nest(kind, bounds[i..], statement) == Some(acc)
    {
      i := i - 1;
      assert bounds[i..][1..] == bounds[i + 1..];
      var next := Quantify(kind, bounds[i], acc);
      if next.None? {
        NestSuffixFails(kind, bounds, statement, i);
        return None;
      }
      acc := next.value;
    }
    assert bounds[0..] == bounds;
    return Some(acc);
  }

  /** What the definition rules' loops find under a prefix of universal
      quantifiers: the bounds, outermost first, and the body. */
  function PeelAll(n: Node): (seq<nat>, Node)
  {
    if n.Quant? && n.kind == All then
      var (bounds, body) := PeelAll(n.statement);
      ([n.bound] + bounds, body)
    else ([], n)
  }

  /** The body under the universal quantifiers is as well formed as the
      whole. */
  lemma {:induction false} PeelWellFormed(n: Node)
    requires Wf(n) && WellSorted(n)
    ensures Wf(PeelAll(n).1) && WellSorted(PeelAll(n).1)
  {
    if n.Quant? && n.kind == All {
      PeelWellFormed(n.statement);
    }
  }

  /** Peeling what the `All` builder built gives back its bounds and body. */
  lemma {:induction false} PeelNest(bounds: seq<nat>, statement: Node)
    requires Nest(All, bounds, statement).Some?
    requires !(statement.Quant? && statement.kind == All)
    ensures PeelAll(Nest(All, bounds, statement).value) == (bounds, statement)
    decreases |bounds|
  {
    if bounds != [] {
      PeelNest(bounds[1..], statement);
      assert [bounds[0]] + bounds[1..] == bounds;
    }
  }

  /** Rebuilding what was peeled off a well-formed tree gives the tree. */
  lemma {:induction false} NestPeel(n: Node)
    requires Wf(n)
    ensures !(PeelAll(n).1.Quant? && PeelAll(n).1.kind == All)
    ensures Nest(All, PeelAll(n).0, PeelAll(n).1) == Some(n)
  {
    if n.Quant? && n.kind == All {
      NestPeel(n.statement);
      var (bounds, body) := PeelAll(n.statement);
      assert ([n.bound] + bounds)[1..] == bounds;
    }
  }

  // ---------------------------------------------------------------------
  // Tuples
  // ---------------------------------------------------------------------

  /** The tuple encoding: `empty` for none, the element itself for one, and
      right-nested `ordered_pair`s otherwise. */
  function Tuple(args: seq<Node>): (r: Node)
    ensures Free(r) == FreeAll(args)
    ensures (forall i | 0 <= i < |args| :: IsTerm(args[i])) ==> IsTerm(r)
    decreases |args|
  {
    if |args| == 0 then Func(Named("empty"), [])
    else if |args| == 1 then args[0]
    else if |args| == 2 then
      assert [args[0], args[1]] == args;
      FreeAllPair(args[0], args[1]);
      Func(Named("ordered_pair"), [args[0], args[1]])
    else
      FreeAllPair(args[0], Tuple(args[1..]));
      Func(Named("ordered_pair"), [args[0], Tuple(args[1..])])
  }

  lemma FreeAllPair(a: Node, b: Node)
    ensures FreeAll([a]) == Free(a)
    ensures FreeAll([a, b]) == Free(a) + Free(b)
  {
    assert [a, b][1..] == [b];
    assert [b][1..] == [];
    assert [a][1..] == [];
    assert FreeAll([b]) == Free(b) + FreeAll([]);
  }

  lemma SubstituteAllPair(a: Node, b: Node, v: nat, t: Node)
    requires Substitute(a, v, t).Some? && Substitute(b, v, t).Some?
    ensures SubstituteAll([a], v, t) == Some([Substitute(a, v, t).value])
    ensures SubstituteAll([a, b], v, t) == Some([Substitute(a, v, t).value, Substitute(b, v, t).value])
  {
    var x := Substitute(a, v, t).value;
    var y := Substitute(b, v, t).value;
    assert [a][0] == a;
    assert SubstituteAll([a], v, t).value == [x];
    assert [a, b][0] == a && [a, b][1] == b;
    assert SubstituteAll([a, b], v, t).value == [x, y];
  }

  /** Reads a tuple of the given arity back into its elements. */
  function Untuple(n: Node, arity: nat): Option<seq<Node>>
    decreases arity
  {
    if arity == 0 then
      if n == Func(Named("empty"), []) then Some([]) else None
    else if arity == 1 then Some([n])
    else if n.Func? && n.name == Named("ordered_pair") && |n.children| == 2 then
      if arity == 2 then Some(n.children)
      else
        var rest :- Untuple(n.children[1], arity - 1);
        Some([n.children[0]] + rest)
    else None
  }

  lemma {:induction false} UntupleTuple(args: seq<Node>)
    ensures Untuple(Tuple(args), |args|) == Some(args)
    decreases |args|
  {
    if |args| > 2 {
      UntupleTuple(args[1..]);
      assert [args[0]] + args[1..] == args;
    } else if |args| == 2 {
      assert [args[0], args[1]] == args;
    } else if |args| == 1 {
      assert [args[0]] == args;
    }
  }

  /** Tuples of the same arity are equal only when their elements are. */
  lemma TupleInjective(xs: seq<Node>, ys: seq<Node>)
    requires |xs| == |ys| && Tuple(xs) == Tuple(ys)
    ensures xs == ys
  {
    UntupleTuple(xs);
    UntupleTuple(ys);
  }
}
