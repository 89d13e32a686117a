# math_up kernel in Dafny

math_up is a small Python program that checks proofs in first-order set
theory. A proof is a script: formulas are built from variables, function and
property symbols, the connectives and three quantifiers. Each formula is
accepted by one inference rule that cites earlier proved formulas from a
proof history. Fitch-style blocks (`with assumption:`) open and close
hypothetical reasoning. This project models math_up's trusted kernel and
proves what its checks guarantee.

The model has six modules:

- `Expr` covers formula trees (`Node`) and the free and bound identity sets the
  constructor computes. It also holds the binder check (`Quantify`),
  substitution, the `All`/`Exist`/`UniquelyExist` builders (`Nest`), the
  `Tuple` encoding and their properties. Python's hash-based equality is
  structural equality of trees here.
- `Logic` covers the propositional procedure behind `tautology`:
  - the logical form with one shared, growing atom numbering: the function
    `LogicalForm` and the method `AtomTable.Form`;
  - evaluation, and the loop over all 2^k truth assignments
    (`CheckEntails`);
  - its soundness and completeness with respect to truth under every
    valuation of the atoms.
- `Interchange` holds the structural check behind `replace`, both as
  math_up runs it and as intended.
- `Scopes` holds the branch counters and stamps of the Fitch-block
  discipline, both as written and as intended.
- `Rules` states each rule's check on trees. It proves facts about them:
  - how put and generalize relate, and how let and found relate;
  - the variable capture `put` allows, and when an instance is capture-free;
  - the shapes of property and function definitions;
  - how the `dual` rule relates to De Morgan's laws for quantifiers.
- `Session` holds math_up's mutable state. `Formula` is a formula object
  whose stamp is set when it is accepted. `Session` carries the class-level
  fields (variable counter, fresh identities, branch counters, depth,
  per-depth bound identities, names and assumptions, the last accepted
  formula), the `defined_by` links as a map and the proof history. Its
  methods are the rules. Each returns `ok` when math_up's assertions all
  hold and `false` where math_up raises. Changes a rule makes before a
  failing check are kept, as in math_up. `Apply` is the `@` dispatch, and
  `StepHolds` states, tag by tag, when the step it runs succeeds.

The session runs the checks exactly as math_up does. That includes the
scope stamp, the `dual` and `interchangable` checks, and `substitute`
without any capture check. The corrected definitions under "Findings" are
proved beside the as-written ones; they are not wired into the session.

## Model

| member | source | states |
|---|---|---|
| Expr.Free | math_up.py:55-99 | definition, no contract: the free identities the constructor stores; a quantifier removes its bound identity, every other node unites its parts' |
| Expr.Bounded | math_up.py:55-99 | definition, no contract: the bound identities the constructor stores; function and property applications start empty and drop their arguments' |
| Expr.Wf | math_up.py:71-78 | definition, no contract: every quantifier in the tree passed the constructor's binder check |
| Expr.IsSentence | math_up.py:122-123 | definition, no contract: everything but a variable or a function application is a sentence |
| Expr.Quantify | math_up.py:71-78 | building a quantifier succeeds iff the bound identity is free and not yet bound in the statement; the result's free set loses it, its bound set gains it, the union is unchanged, and well-formedness is kept |
| Expr.Substitute | math_up.py:200-216 | a successful substitution keeps the tag and symbol of every non-variable node it rebuilds |
| Expr.SubstituteAll | math_up.py:209-210 | an argument list is substituted iff every argument is; the result has the same length and each entry is that argument's substitution |
| Expr.SubstituteSelf | math_up.py:200-216 | putting a variable for itself gives back the same formula |
| Expr.SubstituteAllSelf | math_up.py:209-210 | putting a variable for itself gives back the same argument list |
| Expr.SubstituteUnused | math_up.py:200-216 | substituting an identity that occurs nowhere in a formula gives back the same formula |
| Expr.SubstituteAllUnused | math_up.py:209-210 | the same for an argument list |
| Expr.SubstituteAbsent | math_up.py:200-216 | in a formula whose arguments are terms, substituting an identity outside free ∪ bound gives back the same formula |
| Expr.OccursAllAt | math_up.py:67-70 | every argument's identities and free identities are among the whole list's |
| Expr.OccursWellSorted | math_up.py:55-99 | when every argument is a term, the identities occurring in a formula are exactly its free and bound ones |
| Expr.OccursTerm | math_up.py:62-70 | a term binds nothing and every identity in it is free |
| Expr.OccursAllTerms | math_up.py:67-70 | in a list of terms, the occurring identities are the free ones |
| Expr.TermWellSorted | math_up.py:62-70 | a term has only terms as arguments and binds nothing |
| Expr.FreeBoundedOccur | math_up.py:55-99 | free and bound identities are identities that occur in the formula |
| Expr.FreeAllOccur | math_up.py:67-70 | the free identities of an argument list occur in it |
| Expr.SubstituteOccurs | math_up.py:200-216 | when the replaced identity occurs, everything in the new term occurs in the result |
| Expr.SubstituteAllOccurs | math_up.py:209-210 | the same for an argument list |
| Expr.SubstituteCaptureFree | math_up.py:200-216 | for a variable or function term whose free identities the formula does not bind, substituting an unbound identity succeeds; the result is well formed, binds the same identities, and its free set is the old one with the identity replaced by the term's free set |
| Expr.SubstituteAllCaptureFree | math_up.py:209-210 | the same for a list of term arguments |
| Expr.Nest | math_up.py:636-655 | definition, no contract: the builders wrap the statement in one quantifier per bound, the first bound outermost, and fail where a quantifier would be refused |
| Expr.NestSucceeds | math_up.py:636-655 | the builders succeed iff the bounds are distinct and each binds in what it wraps; the result's free set loses all bounds and its bound set gains them |
| Expr.NestSuffixFails | math_up.py:636-655 | if the inner part of a nesting fails, the whole nesting fails |
| Expr.BuildQuantifiers | math_up.py:636-655 | the builder loop, innermost bound first, yields the nesting |
| Expr.PeelNest | math_up.py:244-259 | peeling the universal quantifiers off a nesting gives back its bounds and statement |
| Expr.NestPeel | math_up.py:244-247 | the peeled body starts with no universal quantifier, and nesting the peeled parts rebuilds the formula |
| Expr.Tuple | math_up.py:657-666 | a tuple's free identities are those of its components; a tuple of terms is a term |
| Expr.UntupleTuple | math_up.py:657-666 | the components of a tuple are recovered from it and its arity |
| Expr.TupleInjective | math_up.py:657-666 | tuples of equal arity are equal only when their components are |
| Logic.IndexOf | math_up.py:343-345 | the number of an atom is the position of its first entry in the numbering |
| Logic.Number | math_up.py:343-345 | numbering a subformula extends the numbering by at most that subformula; the atom names it, and distinct entries stay distinct |
| Logic.LogicalForm | math_up.py:333-345 | the logical form extends the numbering with exactly the formula's non-connective subformulas, keeps entries distinct, and mentions only numbered atoms |
| Logic.AtomTable.constructor | math_up.py:369 | the numbering starts empty |
| Logic.AtomTable.Form | math_up.py:333-345 | the in-place numbering yields the logical form and the grown numbering |
| Logic.FormsFrom | math_up.py:369-374 | forming the reasons in order gives one form per reason over one shared numbering that covers all their atoms |
| Logic.EncodeBits | math_up.py:376-380 | every truth assignment over k atoms is the bit pattern of some case index below 2^k |
| Logic.CheckEntails | math_up.py:376-387 | the loop over case indices succeeds iff every assignment that makes all reasons true makes the target true |
| Logic.Eval | math_up.py:347-365 | definition, no contract: the value of a logical form under an assignment, connective by connective; an implication holds when its conclusion holds or its assumption fails |
| Logic.TautologyHolds | math_up.py:368-388 | definition, no contract: every assignment to the shared numbering that makes all reasons' forms true makes the target's form true |
| Logic.TruthAgree | math_up.py:347-365 | evaluation depends only on the values of the formula's atoms |
| Logic.LogicalFormAbstracts | math_up.py:333-365 | evaluating the logical form under an assignment equals the formula's truth when each numbered subformula gets its atom's value |
| Logic.FormsAbstract | math_up.py:369-375 | the same for every reason formed with the shared numbering |
| Logic.TautologySound | math_up.py:368-388 | when the check passes, the target is true under every valuation that makes all reasons true |
| Logic.TautologyComplete | math_up.py:368-388 | when the target is true under every valuation that makes the reasons true, the check passes |
| Logic.TautologyIsConsequence | math_up.py:368-388 | the check passes iff the target is a propositional consequence of the reasons |
| Logic.ModusPonens | math_up.py:368-388 | from P and P ⇒ Q the check accepts Q |
| Logic.ExcludedMiddle | math_up.py:368-388 | P ∨ ¬P passes with no reasons |
| Logic.IffSelf | math_up.py:368-388 | P ⇔ P passes with no reasons |
| Logic.Explosion | math_up.py:368-388 | from P and ¬P any target passes |
| Logic.FalseGivesAnything | math_up.py:368-388 | from False any target passes |
| Logic.AtomNotTautology | math_up.py:368-388 | a formula that is not a connective never passes on its own |
| Interchange.InterchangeableAsWritten | math_up.py:390-422 | definition, no contract: the check as math_up runs it: equal, or the two sides of the equality in either order, or related part by part |
| Interchange.PartsAsWritten | math_up.py:396-421 | definition, no contract: any two variables pass; applications pass with the same symbol, the same number of arguments and related arguments; True and False pass with themselves; every other node fails |
| Interchange.Interchangeable | math_up.py:390-422 | definition, no contract: the intended check: like the one math_up runs, but variables must be equal or swapped |
| Interchange.Parts | math_up.py:396-421 | definition, no contract: every connective is compared part by part; quantifiers must bind the same identity, not one of the equality's, and have related bodies |
| Interchange.AsWrittenSymmetric | math_up.py:390-422 | the check as written does not depend on which formula is the target |
| Interchange.AsWrittenAnyVariable | math_up.py:390-422 | as written, set(v0) and set(v2) are interchangeable with respect to v1 = v1 |
| Interchange.AsWrittenRejectsNegation | math_up.py:390-422 | as written, ¬p(v0) and ¬p(v1) are refused for the equality v0 = v1, though they are interchangeable as intended |
| Interchange.InterchangeableIdentity | math_up.py:390-422 | as intended, with an equality t = t a formula is interchangeable only with itself |
| Interchange.InterchangeableSymmetric | math_up.py:390-422 | the intended check is symmetric |
| Interchange.InterchangeableRefusesCapture | math_up.py:390-422 | the intended check refuses ∃v0.¬(v0 = v1) against ∃v1.¬(v1 = v1), and ∃v1.¬(v0 = v1) against ∃v1.¬(v1 = v1), for the equality v0 = v1: no swap under a binder that differs or that captures a variable of the equality |
| Interchange.InterchangeableInContext | math_up.py:390-435 | putting x and then y for one unbound variable of a formula, where no quantifier of the formula binds a variable of x or y, gives two formulas the intended check relates |
| Scopes.EnterBranch | math_up.py:182-190 | opening a block keeps the counters up to the current depth; the next depth's counter is new or larger than before |
| Scopes.Enter | math_up.py:181-194 | entering goes one depth deeper and keeps the counters valid |
| Scopes.Exit | math_up.py:196-198 | leaving only lowers the depth; the counters stay |
| Scopes.StampAsWritten | math_up.py:149 | the stamp is as long as the depth and a prefix of the counters |
| Scopes.StampIntended | math_up.py:149 | the corrected stamp includes the current depth's counter |
| Scopes.ProvedAsWritten | math_up.py:132-140 | definition, no contract: a stamp counts as proved while it is a prefix of all the counters |
| Scopes.ProvedIntended | math_up.py:132-140 | definition, no contract: the corrected comparison, against the counters up to the current depth |
| Scopes.AsWrittenStampProved | math_up.py:132-149 | a stamp taken now, or at the enclosing depth, counts as proved |
| Scopes.AsWrittenLeaks | math_up.py:132-198 | as written, a formula accepted inside a block stays proved after the block closes and in the next block at that depth |
| Scopes.AsWrittenTopLevelLeak | math_up.py:181-198 | as written, a block opened at the top level leaves its stamp proved at the top level |
| Scopes.LongerStampAloneLeaks | math_up.py:132-198 | the longer stamp compared against all the counters still counts as proved after its block closes, so both the stamp and the comparison have to change |
| Scopes.IntendedForgetsClosedBlock | math_up.py:132-198 | with the corrected stamp, a formula from a block is proved inside it, but neither after it closes nor in the next block |
| Scopes.IntendedKeepsOuter | math_up.py:132-198 | with the corrected stamp, a formula stays proved in the blocks opened inside its own and after they close |
| Rules.IsEquality | math_up.py:292-293 | definition, no contract: a property named equal with two or more arguments |
| Rules.Instantiates | math_up.py:315-321 | definition, no contract: put's check: the reason is universal, the term is not a sentence, and the target is the reason's statement with the term put for the bound variable |
| Rules.Witnesses | math_up.py:263-269 | definition, no contract: found's check: the target is existential, the term is not a sentence, and the target's statement at the term is the reason |
| Rules.Generalizes | math_up.py:326-331 | definition, no contract: the target is the universal quantifier over the reason |
| Rules.Introduces | math_up.py:273-281 | definition, no contract: let's comparison: the target is the existential's statement with the variable put for its bound variable |
| Rules.ClaimsUnique | math_up.py:289-297 | definition, no contract: claim_unique's check: the reason is an equality of two variables let introduced from the same formula, and that formula is the existential form of the unique-existence target |
| Rules.UniqueInstances | math_up.py:300-312 | definition, no contract: by_unique's check: the target is an equality and the reason's statement at its two sides gives the two other reasons |
| Rules.DefinesProperty | math_up.py:221-232 | definition, no contract: under its universal quantifiers the target is an equivalence whose left side is the named property |
| Rules.PutThenGeneralize | math_up.py:315-331 | putting its own variable back into ∀x.P gives P, and generalizing P over x gives ∀x.P back |
| Rules.LetThenFound | math_up.py:263-281 | the instance a let names is a witness that found accepts for the existential |
| Rules.PutCaptures | math_up.py:315-321 | put accepts ∃v1.¬(v1 = v1) from ∀v0.∃v1.¬(v0 = v1) at the term v1: the term's free variable is captured |
| Rules.InstantiatesSafely | math_up.py:315-321 | definition, no contract: put as intended: put's check, and no variable of the term is bound in the reason's statement |
| Rules.SafeInstance | math_up.py:315-321 | when the term's free identities are not bound in the statement, the instance exists and is well formed; its free set is the reason's plus the term's, and its bound set is the reason's without the quantified identity |
| Rules.PropertyDefinitionAccepted | math_up.py:221-232 | every nesting of universals over P(args) ⇔ Q passes the property-definition check for P |
| Rules.PropertyDefinitionShape | math_up.py:221-232 | every formula that passes the check is such a nesting |
| Rules.DefiningStatement | math_up.py:249-256 | definition, no contract: under the peeled quantifiers, the unique existence (alone or as an implication's conclusion) with the function symbol applied to the peeled variables put for its unique object; none for any other body |
| Rules.FunctionDefinition | math_up.py:237-260 | a definition exists only for a reason whose body under the universal quantifiers is a unique existence or an implication concluding one, and it is quantified when the reason was |
| Rules.DefiningInstance | math_up.py:252-256 | when none of the peeled variables is bound inside the unique existence, the new symbol applied to them goes in for its bound variable without capture; the result is well formed and its free variables are the unique existence's plus the peeled ones |
| Rules.FunctionDefinitionIsInstance | math_up.py:237-260 | for every well-formed reason of either shape whose arguments are terms, the definition exists, it is the nesting of the same universal quantifiers over the statement with the function symbol put for the unique object, it is well formed, and it has the reason's free variables |
| Rules.FunctionDefinitionExample | math_up.py:237-260 | from ∀x.(q(x) ⇒ ∃!y.p(x,y)) the definition of f is ∀x.(q(x) ⇒ p(x, f(x))) |
| Rules.DualAsWritten | math_up.py:482-507 | definition, no contract: dual's check as math_up runs it; with ¬ on the left the quantifier kinds, bound variable and body are compared, with ¬ on the right only the quantifier kinds |
| Rules.Dual | math_up.py:482-507 | definition, no contract: the corrected check, which compares the bound variable and the body on either side |
| Rules.DualAsWrittenUnrelated | math_up.py:482-507 | as written, dual accepts (∃v0.¬p(v0)) ⇔ ¬∀v1.q(v1), which the corrected check refuses |
| Rules.DualIsDeMorgan | math_up.py:482-507 | the corrected check accepts exactly the De Morgan duals ¬∀x.P ⇔ ∃x.¬P and ¬∃x.P ⇔ ∀x.¬P, in either order |
| Rules.DeMorganIsDual | math_up.py:482-507 | every De Morgan dual, in either order, passes the corrected check |
| Rules.DualAgreement | math_up.py:482-507 | with ¬ on the left the two checks agree, and everything the corrected check accepts passes as written |
| Session.Formula.constructor | math_up.py:100-102 | a new formula object carries its tree and no stamp |
| Session.SetDepth | math_up.py:184-193 | a per-depth list gets a new last entry or has the entry at that depth overwritten, nothing else |
| Session.Peel | math_up.py:244-247 | the loop under the universal quantifiers returns the bounds, outermost first, and the body |
| Session.Session.Valid | math_up.py:44-53 | definition, no contract: the per-depth lists (counters, bound sets, names, assumptions) are equally long and longer than the current depth; depth 0 has no assumption and every deeper one has; fresh identities were handed out; the last formula is a sentence; every method of the session keeps it, entering and leaving blocks (math_up.py:181-198) included |
| Session.Session.constructor | math_up.py:44-53 | a session starts at depth 0 with one counter, no fresh identities, no assumption and an empty history |
| Session.Session.Proved | math_up.py:132-140 | definition, no contract: the formula has a stamp and, as written, it is a prefix of the counters |
| Session.Session.Generalizable | math_up.py:125-130 | definition, no contract: no depth up to the current one binds the identity |
| Session.Session.StepHolds | math_up.py:579-614 | definition, no contract: for each tag of the `@` operator, the success condition of the rule it runs, read before the step; the class step never succeeds, and saving alone always does |
| Session.Session.NewVariable | math_up.py:59-64 | a new variable takes the next identity, which is fresh and was not fresh before |
| Session.Session.IsProved | math_up.py:132-140 | the loop decides exactly whether the stamp is a prefix of the counters |
| Session.Session.IsGeneralizable | math_up.py:125-130 | the loop decides exactly whether no depth up to the current one binds the identity |
| Session.Session.Lookup | math_up.py:264-265 | a key yields its formula iff it is in the history and proved now |
| Session.Session.Accept | math_up.py:147-154 | accepting succeeds iff the formula is a sentence; then it is stamped with the counters below the depth, proved, its identities are no longer fresh, and it is the last formula; otherwise nothing changes |
| Session.Session.Save | math_up.py:162-169 | saving succeeds iff the formula is a sentence and a label key is unused; only that key changes, and a number key is overwritten |
| Session.Session.Deduce | math_up.py:177-179 | deduction succeeds iff the target is the last formula accepted |
| Session.Session.Enter | math_up.py:181-194 | entering raises the depth, opens or bumps that depth's counter, resets its names, sets its bound identities to the assumption's free ones, records the assumption and accepts it |
| Session.Session.Exit | math_up.py:196-198 | leaving a block accepts assumption ⇒ last and lowers the depth; it fails at the top level and before anything was accepted |
| Session.Session.FindName | math_up.py:222-223 | the loop decides whether no depth has defined the name |
| Session.Session.DefineProperty | math_up.py:221-232 | a new name is registered at the current depth; the step succeeds iff the name was new and the target defines that property |
| Session.Session.DefineFunction | math_up.py:237-260 | a new name is registered; the step succeeds iff the name was new, the reason is proved and the target is the function definition built from it |
| Session.Session.Found | math_up.py:263-269 | found succeeds iff the reason is proved and is the target's instance at a non-sentence term |
| Session.Session.Let | math_up.py:273-281 | an admitted let records the binding and binds the variable at this depth; it succeeds iff the target is the instance at the variable; afterwards the variable is not generalizable and, for targets whose arguments are terms, not fresh |
| Session.Session.ClaimUnique | math_up.py:289-297 | claim_unique succeeds iff the proved equality relates two variables let introduced from the existential form of the target |
| Session.Session.ByUnique | math_up.py:300-312 | by_unique succeeds iff the three reasons are proved and the two sides of the target equality give the two instances of the unique existence |
| Session.Session.Put | math_up.py:315-321 | put succeeds iff the reason is a proved universal and the target is its instance at a non-sentence term |
| Session.Session.Generalize | math_up.py:326-331 | generalize succeeds iff the reason is proved, the bound identity is generalizable and the target quantifies the reason |
| Session.Session.Replace | math_up.py:427-435 | replace succeeds iff the reason and an equality are proved and the interchange check as written relates the target and the reason |
| Session.Session.FormReasons | math_up.py:369-374 | the first loop succeeds iff every cited key is proved; the forms and numbering are those of forming the reasons in order |
| Session.Session.Tautology | math_up.py:368-388 | tautology succeeds iff every reason is proved and the target is a propositional consequence of them under the shared numbering |
| Session.Session.Dual | math_up.py:482-507 | dual succeeds iff the check as written accepts the target |
| Session.Session.RunCheck | math_up.py:579-614 | a dispatched rule step succeeds exactly when the condition its tag names holds; then the target is accepted (stamped with the counters below the depth, proved, its identities no longer fresh, the last formula); otherwise the target's stamp, the fresh identities and the last formula are unchanged |
| Session.Session.RunDefine | math_up.py:595-600 | a define step succeeds exactly when its condition holds, then accepts the target, and otherwise leaves it untouched; a new name is registered at the current depth whether or not the rest succeeds; the class step fails and registers nothing |
| Session.Session.Apply | math_up.py:579-614 | the `@` operator succeeds iff the step's condition holds, the target is a sentence and a label key is unused; then the target is in the history under the key, otherwise the history is unchanged; a rule step whose condition holds accepts the target even when the save then fails, and one whose condition fails leaves the target's stamp, the fresh identities and the last formula unchanged; only a define step with a new name changes the names, adding it at the current depth; saving alone and the class step change nothing else |
| Session.LeakScenario | math_up.py:181-198 | after a block assuming False opens and closes at the top level, False counts as proved there |
| Session.LeakConsequence | math_up.py:181-198 | after that block, tautology accepts any sentence at the top level |
| Session.LetVariableOccurs | math_up.py:273-281 | the variable a let substitutes occurs free or bound in the target when its arguments are terms |

## Left out

- Python's hash values as the equality of formulas (math_up.py:103-120) are replaced by structural equality of trees. Hash collisions are not modelled.
- Operator overloading and the `overload` stash (math_up.py:518-575), and the `__eq__`/`__ne__` sugar (math_up.py:618-624), are left out. Formulas are built with the datatype's constructors.
- `define_class` (math_up.py:450-477) never succeeds, and changes nothing before it fails. With a non-empty input list, line 454 fails because it looks a formula up among integer identities. With no inputs, the checks on lines 451-456 may pass, but line 471 then passes positional arguments to the constructor, which raises. The `DefineClass` step of `Apply` therefore always fails and changes nothing.
- The callback registry, `match` and `by_theorem` (math_up.py:616, 832-875) are extension code and not part of this model. The `@` operator reaches `let` and `generalize` only through that registry. `let` has a tag (math_up.py:40) but no branch in the dispatch, and `generalize` has no tag at all among math_up.py:28-40. So `Apply` has no step for either, and `Let` and `Generalize` are methods called directly.
- Variable-name globals, `clear`, `make_property`/`make_function` and the theorem library (math_up.py:670-902) are client code and not part of this model.
- The exponential cost of `tautology` is not modelled; only its result is.
- A failed check in math_up raises and ends the script. The model returns false and keeps the state reached so far.
- History keys are labels (strings) or numbers. Other key types, which math_up refuses, cannot be written.
- `is_fresh` (math_up.py:115-117) is the test `variable.id in freshIds` inside `Let`, not a member of its own.
- The free and bound sets that the constructor stores are the functions `Free` and `Bounded`. A tree that the constructor would refuse fails `Wf`, and `Substitute` returns None where the rebuilt quantifier would be refused.
- Session.Session.Let: the "no longer fresh" guarantee is stated only for targets whose arguments are terms. A variable that occurs only as a binder inside a function or property argument is not removed from the fresh set, because the constructor drops the arguments' bound sets.
- Rules.FunctionDefinition: its own contract states only the shape of the reasons it accepts. What it builds is stated by `Rules.FunctionDefinitionIsInstance`, for reasons whose function and property arguments are terms. A quantifier hidden inside such an argument is not seen by the constructor's binder check, so it could capture a peeled variable.
- Interchange.InterchangeableInContext: it is stated for substitutions where no quantifier of the formula binds the replaced variable or a variable of the two terms. Elsewhere the intended check refuses the pair by design.

## Findings

In each row the as-written member models math_up as it runs, and the session uses it. The corrected member states the evident intent and proves it.

| source | as written | input that shows it | evidently intended | confidence | as-written member | corrected member |
|---|---|---|---|---|---|---|
| math_up.py:390-422 | a variable node has no arguments, so the part-by-part comparison relates any two variables | set(v0) and set(v2) with the equality v1 = v1: replace derives set(v2) from set(v0) | a variable is interchangeable only with itself or as one side of the equality | not executed | Interchange.AsWrittenAnyVariable | Interchange.InterchangeableIdentity |
| math_up.py:400-405 | comparing a formula-valued argument with None goes through the overloaded `==`, which raises, so no negation, connective or quantifier is compared part by part | ¬p(v0) and ¬p(v1) with the equality v0 = v1 are refused | compare every part recursively | not executed | Interchange.AsWrittenRejectsNegation | Interchange.InterchangeableInContext |
| math_up.py:149, 196-198 | the stamp leaves out the current depth's counter and leaving a block only lowers the depth, so a block's assumption stays proved after the block | a block assuming False opened and closed at the top level; False is then proved there, and tautology accepts any sentence | two changes together: stamp with the counters up to and including the current depth, and compare a stamp only with the counters up to the current depth (or shorten the counters on leaving a block); the longer stamp alone still leaks (Scopes.LongerStampAloneLeaks) | not executed | Session.LeakConsequence | Scopes.IntendedForgetsClosedBlock |
| math_up.py:495-503 | with ¬ on the right only the quantifier kinds are checked, not the bound variable or the body | (∃v0.¬p(v0)) ⇔ ¬∀v1.q(v1) is accepted | the right-hand form mirrors the left-hand check: same bound variable and same body | not executed | Rules.DualAsWrittenUnrelated | Rules.DualIsDeMorgan |
| math_up.py:315-321 | put substitutes with no check that the term's variables stay free | from ∀v0.∃v1.¬(v0 = v1), put at v1 gives ∃v1.¬(v1 = v1) | refuse a term whose free variables the statement binds | not executed | Rules.PutCaptures | Rules.SafeInstance |
