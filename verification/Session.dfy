/**
 * A math_up session: the state the formula class keeps in class
 * fields (the variable counter, the fresh identities, the scope counters,
 * the identities bound and the names defined at each depth, the open
 * assumptions, the last accepted formula) together with the proof history,
 * and the rules that read and change it.
 *
 * A rule either succeeds, stamping the target as proved, or fails (an
 * assertion or an exception in math_up); each method returns ok for
 * the first and false for the second. Changes a rule makes before the
 * check that fails (the name a definition registers, the statement and the
 * binding a let records) stay, as they do in math_up.
 */
module Session {
  import opened Wrappers
  import opened Expr
  import opened Logic
  import opened Interchange
  import Rules
  import Scopes

  /** Keys of the proof history: a label names one formula for the whole
      proof, a number can be reused. */
  datatype Key = Label(text: string) | Slot(number: int)

  /** A formula object: its tree never changes; the stamp is set when the
      formula is accepted. Equal trees in two objects are stamped apart. */
  class Formula {
    const node: WfNode
    var stamp: Option<seq<nat>>

    constructor (n: WfNode)
      ensures node == n && stamp == None
    {
      node := n;
      stamp := None;
    }
  }

  /** The steps the `@` operator dispatches; the history key comes with
      them. */
  datatype Inference =
    | SaveOnly
    | Deduce
    | Tautology(reasons: seq<Key>)
    | DefineProperty(name: string)
    | DefineFunction(name: string, reason: Key)
    | DefineClass
    | Dual
    | Found(term: Node, reason: Key)
    | ClaimUnique(reason: Key)
    | ByUnique(reason: Key, left: Key, right: Key)
    | Put(term: Node, reason: Key)
    | Replace(reason: Key, equality: Key)
    | Axiom

  /** The list after the entry for depth i is set: a first block at that
      depth adds the entry, a later one overwrites it. */
  function SetDepth<T>(s: seq<T>, i: nat, x: T): (r: seq<T>)
    requires i <= |s|
    ensures |r| == if i == |s| then |s| + 1 else |s|
    ensures r[..i] == s[..i] && r[i] == x
    ensures i < |s| ==> r[i + 1..] == s[i + 1..]
  {
    if i == |s| then s + [x] else s[i := x]
  }

  /** The loop the definition rules run to get under the universal
      quantifiers: the bounds, outermost first, and the body. */
  method Peel(n: Node) returns (bounds: seq<nat>, body: Node)
    ensures (bounds, body) == PeelAll(n)
  {
    bounds := [];
    body := n;
    assert bounds + PeelAll(body).0 == PeelAll(body).0;
    while body.Quant? && body.kind == All
      invariant (bounds + PeelAll(body).0, PeelAll(body).1) == PeelAll(n)
      decreases body
    {
      assert bounds + PeelAll(body).0 == (bounds + [body.bound]) + PeelAll(body.statement).0;
      bounds := bounds + [body.bound];
      body := body.statement;
    }
    assert bounds + [] == bounds;
  }

  /** The reasons' trees, in the order cited. */
  function Nodes(keys: seq<Key>, history: map<Key, Formula>): (r: seq<Node>)
    requires forall i | 0 <= i < |keys| :: keys[i] in history
    ensures |r| == |keys|
    ensures forall i | 0 <= i < |keys| :: r[i] == history[keys[i]].node
  {
    seq(|keys|, i requires 0 <= i < |keys| => history[keys[i]].node)
  }

  class Session {
    var counter: nat
    var freshIds: set<nat>
    var branch: seq<nat>
    var level: nat
    var bounded: seq<set<nat>>
    var names: seq<set<string>>
    var assumptions: seq<Option<WfNode>>
    var last: Option<WfNode>
    var definedBy: map<nat, Node>
    var history: map<Key, Formula>

    /** The per-depth lists have one entry per depth opened so far, more
        than the current depth; depth 0 has no assumption and every other
        depth has one; fresh identities were handed out; the last accepted
        formula is a sentence. */
    predicate Valid()
      reads this
    {
      level < |branch| && |bounded| == |branch| && |names| == |branch| &&
      |assumptions| == |branch| &&
      assumptions[0] == None && (forall i | 0 < i < |assumptions| :: assumptions[i].Some?) &&
      (forall x | x in freshIds :: x < counter) &&
      (last.Some? ==> IsSentence(last.value))
    }

    constructor ()
      ensures Valid()
      ensures counter == 0 && freshIds == {} && branch == [0] && level == 0
      ensures bounded == [{}] && names == [{}] && assumptions == [None]
      ensures last == None && definedBy == map[] && history == map[]
    {
      counter := 0;
      freshIds := {};
      branch := [0];
      level := 0;
      bounded := [{}];
      names := [{}];
      assumptions := [None];
      last := None;
      definedBy := map[];
      history := map[];
    }

    function Scope(): Scopes.Scope
      reads this`branch, this`level
    {
      Scopes.Scope(branch, level)
    }

    /** A formula is proved while its stamp is a prefix of the branch. */
    predicate Proved(f: Formula)
      reads this`branch, this`level, f`stamp
    {
      f.stamp.Some? && Scopes.ProvedAsWritten(f.stamp.value, Scope())
    }

    /** No depth up to the current one binds the identity. */
    predicate Generalizable(id: nat)
      reads this
      requires Valid()
    {
      forall l | 0 <= l <= level :: id !in bounded[l]
    }

    /** No depth, open or left, has defined the name. */
    predicate NameFree(name: string)
      reads this
    {
      forall l | 0 <= l < |names| :: name !in names[l]
    }

    /** The key holds a formula proved now. */
    predicate Cited(key: Key)
      reads this`history, this`branch, this`level, history.Values`stamp
    {
      key in history && Proved(history[key])
    }

    /** What accepting f did: stamped it with the branch up to the current
        depth, took its identities out of the fresh ones, made it the last
        formula. */
    twostate predicate Accepted(f: Formula)
      reads this, f
    {
      level <= |branch| && f.stamp == Some(branch[..level]) && Proved(f) &&
      freshIds == old(freshIds) - (Free(f.node) + Bounded(f.node)) && last == Some(f.node)
    }

    twostate predicate Untouched(f: Formula)
      reads this, f
    {
      f.stamp == old(f.stamp) && freshIds == old(freshIds) && last == old(last)
    }

    /** The condition under which the step a tag of the `@` operator names
        succeeds, read in the state before the step: that rule method's
        success condition. */
    twostate predicate StepHolds(f: Formula, step: Inference)
    {
      match step
      case SaveOnly => true
      case Deduce => old(last) == Some(f.node)
      case Tautology(keys) =>
        (forall i | 0 <= i < |keys| :: old(Cited(keys[i]))) &&
        TautologyHolds(Nodes(keys, old(history)), f.node) && IsSentence(f.node)
      case DefineProperty(name) => old(NameFree(name)) && Rules.DefinesProperty(f.node, name)
      case DefineFunction(name, key) =>
        old(NameFree(name)) && old(Cited(key)) &&
        Rules.FunctionDefinition(name, old(history)[key].node) == Some(f.node) && IsSentence(f.node)
      case DefineClass => false
      case Dual => Rules.DualAsWritten(f.node)
      case Found(term, key) => old(Cited(key)) && Rules.Witnesses(f.node, term, old(history)[key].node)
      case ClaimUnique(key) =>
        old(Cited(key)) && Rules.ClaimsUnique(f.node, old(history)[key].node, old(definedBy))
      case ByUnique(key, left, right) =>
        old(Cited(key)) && old(Cited(left)) && old(Cited(right)) &&
        Rules.UniqueInstances(f.node, old(history)[key].node, old(history)[left].node, old(history)[right].node)
      case Put(term, key) =>
        old(Cited(key)) && Rules.Instantiates(f.node, term, old(history)[key].node) && IsSentence(f.node)
      case Replace(key, equalityKey) =>
        old(Cited(key)) && old(Cited(equalityKey)) && Rules.IsEquality(old(history)[equalityKey].node) &&
        InterchangeableAsWritten(f.node, old(history)[key].node,
          old(history)[equalityKey].node.children[0], old(history)[equalityKey].node.children[1]) &&
        IsSentence(f.node)
      case Axiom => IsSentence(f.node)
    }

    /** A new variable, fresh until a formula that mentions it is
        accepted. */
    method NewVariable() returns (x: Node)
      requires Valid()
      modifies this`counter, this`freshIds
      ensures Valid()
      ensures x == Var(old(counter)) && counter == old(counter) + 1
      ensures freshIds == old(freshIds) + {old(counter)} && old(counter) !in old(freshIds)
    {
      x := Var(counter);
      freshIds := freshIds + {counter};
      counter := counter + 1;
    }

    method IsProved(f: Formula) returns (b: bool)
      ensures b == Proved(f)
    {
      if f.stamp == None {
        return false;
      }
      var s := f.stamp.value;
      if |s| > |branch| {
        return false;
      }
      var i := 0;
      while i < |s|
        invariant i <= |s|
        invariant s[..i] == branch[..i]
      {
        if s[i] != branch[i] {
          return false;
        }
        i := i + 1;
      }
      assert s == branch[..|s|];
      return true;
    }

    method IsGeneralizable(id: nat) returns (b: bool)
      requires Valid()
      ensures b == Generalizable(id)
    {
      var l := 0;
      while l <= level
        invariant l <= level + 1
        invariant forall l' | 0 <= l' < l :: id !in bounded[l']
      {
        if id in bounded[l] {
          return false;
        }
        l := l + 1;
      }
      return true;
    }

    /** The formula a key names, when it is proved now; the rules fail on a
        missing key and on an unproved formula alike. */
    method Lookup(key: Key) returns (r: Option<Formula>)
      ensures r.Some? <==> Cited(key)
      ensures r.Some? ==> r.value == history[key]
    {
      if key !in history {
        return None;
      }
      var proved := IsProved(history[key]);
      if !proved {
        return None;
      }
      return Some(history[key]);
    }

    /** Accepting is proving: only sentences can be accepted, and an
        accepted formula is proved at once. */
    method Accept(f: Formula) returns (ok: bool)
      requires Valid()
      modifies this`freshIds, this`last, f`stamp
      ensures Valid()
      ensures ok == IsSentence(f.node)
      ensures ok ==> Accepted(f)
      ensures !ok ==> Untouched(f)
    {
      if !IsSentence(f.node) {
        return false;
      }
      f.stamp := Some(branch[..level]);
      var ids := Free(f.node) + Bounded(f.node);
      while ids != {}
        modifies this`freshIds
        invariant ids <= Free(f.node) + Bounded(f.node)
        invariant freshIds == old(freshIds) - (Free(f.node) + Bounded(f.node) - ids)
        decreases |ids|
      {
        var x :| x in ids;
        if x in freshIds {
          freshIds := freshIds - {x};
        }
        ids := ids - {x};
      }
      last := Some(f.node);
      assert Scopes.ProvedAsWritten(branch[..level], Scope());
      return true;
    }

    /** Saving: only a sentence, under a label not used before or under a
        number; nothing else in the history changes. */
    method Save(f: Formula, key: Key) returns (ok: bool)
      modifies this`history
      ensures ok == (IsSentence(f.node) && (key.Label? ==> key !in old(history)))
      ensures history == if ok then old(history)[key := f] else old(history)
    {
      if !IsSentence(f.node) {
        return false;
      }
      if key.Label? && key in history {
        return false;
      }
      history := history[key := f];
      return true;
    }

    /** The deduction rule: the target must be the last formula accepted,
        in practice the implication a block leaves behind. */
    method Deduce(f: Formula) returns (ok: bool)
      requires Valid()
      modifies this`freshIds, this`last, f`stamp
      ensures Valid()
      ensures ok == (old(last) == Some(f.node))
      ensures ok ==> Accepted(f)
      ensures !ok ==> Untouched(f)
    {
      if last != Some(f.node) {
        return false;
      }
      ok := Accept(f);
    }

    /** Opening a block with f as its assumption: one depth deeper, a new
        counter at that depth, its bound identities and names reset, the
        assumption's free identities bound, and the assumption accepted. */
    method Enter(f: Formula) returns (ok: bool)
      requires Valid()
      modifies this`level, this`branch, this`bounded, this`names, this`assumptions
      modifies this`freshIds, this`last, f`stamp
      ensures Valid()
      ensures level == old(level) + 1
      ensures branch == Scopes.EnterBranch(old(branch), old(level))
      ensures bounded == SetDepth(old(bounded), level, Free(f.node))
      ensures names == SetDepth(old(names), level, {})
      ensures assumptions == SetDepth(old(assumptions), level, Some(f.node))
      ensures ok == IsSentence(f.node)
      ensures ok ==> Accepted(f)
      ensures !ok ==> Untouched(f)
    {
      level := level + 1;
      branch := Scopes.EnterBranch(branch, level - 1);
      // the depth's bound identities start empty and take the
      // assumption's free ones
      bounded := SetDepth(bounded, level, Free(f.node));
      names := SetDepth(names, level, {});
      assumptions := SetDepth(assumptions, level, Some(f.node));
      ok := Accept(f);
    }

    /** Closing the current block: the implication from its assumption to
        the last formula is accepted (it becomes the last formula, to be
        deduced), and the depth goes down. The counters stay. Fails at the
        top level and before anything was accepted. */
    method Exit() returns (ok: bool)
      requires Valid()
      modifies this`level, this`freshIds, this`last
      ensures Valid()
      ensures ok == (old(level) > 0 && old(last).Some?)
      ensures ok ==> (level == old(level) - 1 &&
        var imply := Binary(Imply, old(assumptions[level]).value, old(last).value);
        last == Some(imply) && freshIds == old(freshIds) - (Free(imply) + Bounded(imply)))
      ensures !ok ==> level == old(level) && last == old(last) && freshIds == old(freshIds)
    {
      if level == 0 || last == None {
        return false;
      }
      var imply := new Formula(Binary(Imply, assumptions[level].value, last.value));
      ok := Accept(imply);
      level := level - 1;
    }

    method FindName(name: string) returns (free: bool)
      ensures free == NameFree(name)
    {
      var l := 0;
      while l < |names|
        invariant l <= |names|
        invariant forall l' | 0 <= l' < l :: name !in names[l']
      {
        if name in names[l] {
          return false;
        }
        l := l + 1;
      }
      return true;
    }

    /** Defining a property: the name must be new at every depth; it is
        registered before the shape is checked. */
    method DefineProperty(f: Formula, name: string) returns (ok: bool)
      requires Valid()
      modifies this`names, this`freshIds, this`last, f`stamp
      ensures Valid()
      ensures names == if old(NameFree(name)) then old(names)[level := old(names)[level] + {name}] else old(names)
      ensures ok == (old(NameFree(name)) && Rules.DefinesProperty(f.node, name))
      ensures ok ==> Accepted(f)
      ensures !ok ==> Untouched(f)
    {
      var free := FindName(name);
      if !free {
        return false;
      }
      names := names[level := names[level] + {name}];
      var _, cursor := Peel(f.node);
      if !(cursor.Binary? && cursor.op == Iff && cursor.left.Prop? && cursor.left.name == Named(name)) {
        return false;
      }
      ok := Accept(f);
    }

    /** Defining a function from a proved unique existence: the name must be
        new at every depth and is registered before anything else is
        checked. */
    method DefineFunction(f: Formula, name: string, key: Key) returns (ok: bool)
      requires Valid()
      modifies this`names, this`freshIds, this`last, f`stamp
      ensures Valid()
      ensures names == if old(NameFree(name)) then old(names)[level := old(names)[level] + {name}] else old(names)
      ensures ok == (old(NameFree(name)) && old(Cited(key)) &&
                     Rules.FunctionDefinition(name, history[key].node) == Some(f.node) && IsSentence(f.node))
      ensures ok ==> Accepted(f)
      ensures !ok ==> Untouched(f)
    {
      var free := FindName(name);
      if !free {
        return false;
      }
      names := names[level := names[level] + {name}];
      var reason := Lookup(key);
      if reason.None? {
        return false;
      }
      var bounds, body := Peel(reason.value.node);
      var definition := Rules.DefiningStatement(name, bounds, body);
      assert Rules.FunctionDefinition(name, reason.value.node) ==
        if definition.None? then None else Nest(All, bounds, definition.value);
      if definition.None? {
        return false;
      }
      var whole := BuildQuantifiers(All, bounds, definition.value);
      if whole != Some(f.node) {
        return false;
      }
      ok := Accept(f);
    }

    /** found: an existential from a term and the reason's instance at it. */
    method Found(f: Formula, term: Node, key: Key) returns (ok: bool)
      requires Valid()
      modifies this`freshIds, this`last, f`stamp
      ensures Valid()
      ensures ok == (old(Cited(key)) && Rules.Witnesses(f.node, term, history[key].node))
      ensures ok ==> Accepted(f)
      ensures !ok ==> Untouched(f)
    {
      var reason := Lookup(key);
      if reason.None? || IsSentence(term) || !(f.node.Quant? && f.node.kind == Exist) {
        return false;
      }
      if Substitute(f.node.statement, f.node.bound, term) != Some(reason.value.node) {
        return false;
      }
      ok := Accept(f);
    }

    /** let: names the object a proved existential speaks of. The variable
        must be fresh; it is bound at the current depth and remembers its
        statement before the target is compared. Afterwards it is not
        generalizable, and once it appears in the accepted target it is no
        longer fresh, so a second let with it fails. */
    method Let(f: Formula, variable: Node, key: Key) returns (ok: bool)
      requires Valid()
      modifies this`definedBy, this`bounded, this`freshIds, this`last, f`stamp
      ensures Valid()
      ensures var admitted := old(Cited(key)) && history[key].node.Quant? &&
          history[key].node.kind in {Exist, UniquelyExist} &&
          variable.Var? && variable.id in old(freshIds);
        (admitted ==> definedBy == old(definedBy)[variable.id := history[key].node] &&
                      bounded == old(bounded)[level := old(bounded)[level] + {variable.id}]) &&
        (!admitted ==> definedBy == old(definedBy) && bounded == old(bounded)) &&
        ok == (admitted && Rules.Introduces(f.node, variable.id, history[key].node) && IsSentence(f.node))
      ensures ok ==> Accepted(f) && !Generalizable(variable.id)
      ensures ok && WellSorted(f.node) ==> variable.id !in freshIds
      ensures !ok ==> Untouched(f)
    {
      var reason := Lookup(key);
      if reason.None? || !(reason.value.node.Quant? && reason.value.node.kind in {Exist, UniquelyExist}) {
        return false;
      }
      if !variable.Var? || variable.id !in freshIds {
        return false;
      }
      var r := reason.value.node;
      definedBy := definedBy[variable.id := r];
      bounded := bounded[level := bounded[level] + {variable.id}];
      if Substitute(r.statement, r.bound, variable) != Some(f.node) {
        return false;
      }
      ok := Accept(f);
      assert variable.id in bounded[level];
      if ok && WellSorted(f.node) {
        LetVariableOccurs(r, variable.id, f.node);
      }
    }

    /** claim_unique: two variables let introduced from the same existential
        are equal, so the object is unique. */
    method ClaimUnique(f: Formula, key: Key) returns (ok: bool)
      requires Valid()
      modifies this`freshIds, this`last, f`stamp
      ensures Valid()
      ensures ok == (old(Cited(key)) && Rules.ClaimsUnique(f.node, history[key].node, definedBy))
      ensures ok ==> Accepted(f)
      ensures !ok ==> Untouched(f)
    {
      var reason := Lookup(key);
      if reason.None? || !Rules.IsEquality(reason.value.node) {
        return false;
      }
      var a := reason.value.node.children[0];
      var b := reason.value.node.children[1];
      if !a.Var? || !b.Var? {
        return false;
      }
      var da := if a.id in definedBy then Some(definedBy[a.id]) else None;
      var db := if b.id in definedBy then Some(definedBy[b.id]) else None;
      if da != db || !(f.node.Quant? && f.node.kind == UniquelyExist) {
        return false;
      }
      if da != Some(Quant(Exist, f.node.bound, f.node.statement)) {
        return false;
      }
      ok := Accept(f);
    }

    /** by_unique: a = b from a unique existence and its instances at a and
        at b. */
    method ByUnique(f: Formula, key: Key, leftKey: Key, rightKey: Key) returns (ok: bool)
      requires Valid()
      modifies this`freshIds, this`last, f`stamp
      ensures Valid()
      ensures ok == (old(Cited(key)) && old(Cited(leftKey)) && old(Cited(rightKey)) &&
                     Rules.UniqueInstances(f.node, history[key].node, history[leftKey].node, history[rightKey].node))
      ensures ok ==> Accepted(f)
      ensures !ok ==> Untouched(f)
    {
      var reason := Lookup(key);
      var left := Lookup(leftKey);
      var right := Lookup(rightKey);
      if reason.None? || left.None? || right.None? {
        return false;
      }
      var r := reason.value.node;
      if !Rules.IsEquality(f.node) || !(r.Quant? && r.kind == UniquelyExist) {
        return false;
      }
      if Substitute(r.statement, r.bound, f.node.children[0]) != Some(left.value.node) {
        return false;
      }
      if Substitute(r.statement, r.bound, f.node.children[1]) != Some(right.value.node) {
        return false;
      }
      ok := Accept(f);
    }

    /** put: an instance of a proved universal statement at a term. */
    method Put(f: Formula, term: Node, key: Key) returns (ok: bool)
      requires Valid()
      modifies this`freshIds, this`last, f`stamp
      ensures Valid()
      ensures ok == (old(Cited(key)) && Rules.Instantiates(f.node, term, history[key].node) && IsSentence(f.node))
      ensures ok ==> Accepted(f)
      ensures !ok ==> Untouched(f)
    {
      var reason := Lookup(key);
      if reason.None? || !(reason.value.node.Quant? && reason.value.node.kind == All) || IsSentence(term) {
        return false;
      }
      var r := reason.value.node;
      if Substitute(r.statement, r.bound, term) != Some(f.node) {
        return false;
      }
      ok := Accept(f);
    }

    /** generalize: a proved statement holds for every value of a variable
        that no open depth binds. */
    method Generalize(f: Formula, key: Key) returns (ok: bool)
      requires Valid()
      modifies this`freshIds, this`last, f`stamp
      ensures Valid()
      ensures ok == (old(Cited(key)) && f.node.Quant? && Generalizable(f.node.bound) &&
                     Rules.Generalizes(f.node, history[key].node))
      ensures ok ==> Accepted(f)
      ensures !ok ==> Untouched(f)
    {
      var reason := Lookup(key);
      if reason.None? || !f.node.Quant? {
        return false;
      }
      var g := IsGeneralizable(f.node.bound);
      if !g {
        return false;
      }
      if Quantify(All, f.node.bound, reason.value.node) != Some(f.node) {
        return false;
      }
      ok := Accept(f);
    }

    /** replace: the target differs from a proved reason only by the two
        sides of a proved equality, as the interchange check decides. */
    method Replace(f: Formula, key: Key, equalityKey: Key) returns (ok: bool)
      requires Valid()
      modifies this`freshIds, this`last, f`stamp
      ensures Valid()
      ensures ok == (old(Cited(key)) && old(Cited(equalityKey)) && Rules.IsEquality(history[equalityKey].node) &&
                     InterchangeableAsWritten(f.node, history[key].node,
                       history[equalityKey].node.children[0], history[equalityKey].node.children[1]) &&
                     IsSentence(f.node))
      ensures ok ==> Accepted(f)
      ensures !ok ==> Untouched(f)
    {
      var reason := Lookup(key);
      var equality := Lookup(equalityKey);
      if reason.None? || equality.None? || !Rules.IsEquality(equality.value.node) {
        return false;
      }
      var e := equality.value.node;
      if !InterchangeableAsWritten(f.node, reason.value.node, e.children[0], e.children[1]) {
        return false;
      }
      ok := Accept(f);
    }

    /** The first loop of tautology: each cited reason must be proved; its
        logical form is taken with the one growing numbering. */
    method FormReasons(keys: seq<Key>) returns (found: bool, forms: seq<Node>, table: AtomTable)
      ensures found == forall i | 0 <= i < |keys| :: Cited(keys[i])
      ensures found ==> (forms, table.atoms) == FormsFrom(Nodes(keys, history), [])
      ensures fresh(table)
    {
      table := new AtomTable();
      forms := [];
      var i := 0;
      while i < |keys|
        modifies table
        invariant i <= |keys|
        invariant forall j | 0 <= j < i :: Cited(keys[j])
        invariant (forms, table.atoms) == FormsFrom(Nodes(keys[..i], history), [])
      {
        var reason := Lookup(keys[i]);
        if reason.None? {
          return false, forms, table;
        }
        var form := table.Form(reason.value.node);
        assert Nodes(keys[..i + 1], history)[..i] == Nodes(keys[..i], history);
        forms := forms + [form];
        i := i + 1;
      }
      assert keys[..i] == keys;
      return true, forms, table;
    }

    /** tautology: the target follows propositionally from the cited proved
        reasons, every non-connective subformula taken as an atom. The
        reasons are formed first, in order, then the target, with one
        numbering; then every case is tried. */
    method Tautology(f: Formula, keys: seq<Key>) returns (ok: bool)
      requires Valid()
      modifies this`freshIds, this`last, f`stamp
      ensures Valid()
      ensures ok == ((forall i | 0 <= i < |keys| :: old(Cited(keys[i]))) &&
                     TautologyHolds(Nodes(keys, history), f.node) && IsSentence(f.node))
      ensures ok ==> Accepted(f)
      ensures !ok ==> Untouched(f)
    {
      var found, forms, table := FormReasons(keys);
      if !found {
        return false;
      }
      var before := table.atoms;
      var target := table.Form(f.node);
      forall j | 0 <= j < |forms| ensures Within(forms[j], |table.atoms|) {
        WithinMono(forms[j], |before|, |table.atoms|);
      }
      ok := CheckEntails(forms, target, |table.atoms|);
      if !ok {
        return false;
      }
      ok := Accept(f);
    }

    /** dual, as math_up runs it. */
    method Dual(f: Formula) returns (ok: bool)
      requires Valid()
      modifies this`freshIds, this`last, f`stamp
      ensures Valid()
      ensures ok == Rules.DualAsWritten(f.node)
      ensures ok ==> Accepted(f)
      ensures !ok ==> Untouched(f)
    {
      if !Rules.DualAsWritten(f.node) {
        return false;
      }
      ok := Accept(f);
    }

    /** The steps that need no name: on success the target is proved. */
    method RunCheck(f: Formula, step: Inference) returns (done: bool)
      requires Valid()
      requires !(step.SaveOnly? || step.DefineProperty? || step.DefineFunction? || step.DefineClass?)
      modifies this`freshIds, this`last, f`stamp
      ensures Valid()
      ensures done == StepHolds(f, step)
      ensures done ==> Accepted(f) && Proved(f)
      ensures !done ==> Untouched(f)
    {
      match step {
        case Deduce => done := Deduce(f);
        case Tautology(keys) => done := Tautology(f, keys);
        case Dual => done := Dual(f);
        case Found(term, reason) => done := Found(f, term, reason);
        case ClaimUnique(reason) => done := ClaimUnique(f, reason);
        case ByUnique(reason, left, right) => done := ByUnique(f, reason, left, right);
        case Put(term, reason) => done := Put(f, term, reason);
        case Replace(reason, equality) => done := Replace(f, reason, equality);
        case Axiom => done := Accept(f);
      }
    }

    /** The steps that register a name; the class step fails before it
        changes anything. */
    method RunDefine(f: Formula, step: Inference) returns (done: bool)
      requires Valid()
      requires step.DefineProperty? || step.DefineFunction? || step.DefineClass?
      modifies this`names, this`freshIds, this`last, f`stamp
      ensures Valid()
      ensures done == StepHolds(f, step)
      ensures done ==> Accepted(f)
      ensures !done ==> Untouched(f)
      ensures names ==
        if !step.DefineClass? && old(NameFree(step.name))
        then old(names)[level := old(names)[level] + {step.name}]
        else old(names)
    {
      match step {
        case DefineProperty(name) => done := DefineProperty(f, name);
        case DefineFunction(name, reason) => done := DefineFunction(f, name, reason);
        case DefineClass => done := false;
      }
    }

    /** The `@` operator: runs the step, then saves the target under the key.
        A rule step that succeeds accepts the target, even when the save
        then fails; a failing step changes neither the target nor the fresh
        identities nor the last formula, and saves nothing. Only a define
        step with a new name registers it. The class step always fails in
        math_up, before it changes anything. */
    method Apply(f: Formula, key: Key, step: Inference) returns (ok: bool)
      requires Valid()
      modifies this`names, this`freshIds, this`last, this`history, f`stamp
      ensures Valid()
      ensures ok == (StepHolds(f, step) && IsSentence(f.node) && (key.Label? ==> key !in old(history)))
      ensures step.SaveOnly? ==>
        (ok == (IsSentence(f.node) && (key.Label? ==> key !in old(history))) && Untouched(f) && names == old(names))
      ensures ok ==> key in history && history[key] == f && IsSentence(f.node)
      ensures ok && !step.SaveOnly? ==> Proved(f)
      ensures StepHolds(f, step) && !step.SaveOnly? ==> Accepted(f)
      ensures !StepHolds(f, step) ==> Untouched(f)
      ensures names ==
        if (step.DefineProperty? || step.DefineFunction?) && old(NameFree(step.name))
        then old(names)[level := old(names)[level] + {step.name}]
        else old(names)
      ensures history == if ok then old(history)[key := f] else old(history)
      ensures step.DefineClass? ==> !ok && Untouched(f) && names == old(names)
    {
      var done: bool;
      if step.SaveOnly? {
        done := true;
      } else if step.DefineProperty? || step.DefineFunction? || step.DefineClass? {
        done := RunDefine(f, step);
      } else {
        done := RunCheck(f, step);
      }
      if !done {
        return false;
      }
      ok := Save(f, key);
    }
  }

  /** The scope leak in a whole session: a block assuming False is opened
      at the top level and closed again; back at the top level the
      assumption still counts as proved. */
  method LeakScenario() returns (s: Session, assumption: Formula)
    ensures s.Valid() && s.level == 0
    ensures fresh(s) && fresh(assumption)
    ensures assumption.node == False && s.Proved(assumption)
  {
    s := new Session();
    assumption := new Formula(False);
    var entered := s.Enter(assumption);
    var closed := s.Exit();
  }

  /** Anything follows from the leaked assumption at the top level. */
  method LeakConsequence(p: WfNode) returns (ok: bool)
    requires IsSentence(p)
    ensures ok
  {
    var s, assumption := LeakScenario();
    var saved := s.Save(assumption, Slot(0));
    var target := new Formula(p);
    FalseGivesAnything(p);
    assert Nodes([Slot(0)], s.history) == [False];
    ok := s.Tautology(target, [Slot(0)]);
  }

  /** The variable a let puts in for the bound variable occurs free or
      bound in the result, when its arguments are terms. */
  lemma LetVariableOccurs(reason: Node, c: nat, target: Node)
    requires reason.Quant? && Wf(reason)
    requires Substitute(reason.statement, reason.bound, Var(c)) == Some(target)
    requires WellSorted(target)
    ensures c in Free(target) + Bounded(target)
  {
    FreeBoundedOccur(reason.statement);
    SubstituteOccurs(reason.statement, reason.bound, Var(c));
    OccursWellSorted(target);
  }
}
