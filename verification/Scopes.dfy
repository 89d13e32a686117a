/**
 * The scope discipline of math_up. A proof is a tree of blocks: each
 * `with assumption:` opens a block one level deeper. math_up keeps a
 * branch counter per level (`branch[i]` numbers the blocks opened so far
 * at depth i under the current path) and stamps every accepted formula with
 * a prefix of it. A formula counts as proved while its stamp is a prefix of
 * the current branch.
 *
 * The functions marked AsWritten are the discipline math_up runs: the
 * stamp is `branch[..level]` and leaving a block only lowers the level.
 * The Intended ones stamp with `branch[..level + 1]`, compare against the
 * part of the branch up to the current level, and stamp the implication a
 * block leaves behind after the level is lowered. The README's findings
 * explain the difference.
 */
module Scopes {

  /** The branch counters and the current depth. */
  datatype Scope = Scope(branch: seq<nat>, level: nat)

  predicate Valid(s: Scope)
  {
    s.level < |s.branch|
  }

  /** The counters after opening a block at depth level + 1: a first block
      at that depth adds a counter, a later one bumps it. */
  function EnterBranch(branch: seq<nat>, level: nat): (r: seq<nat>)
    requires level < |branch|
    ensures level + 1 < |r|
    ensures r[..level + 1] == branch[..level + 1]
    ensures level + 1 < |branch| ==> r[level + 1] > branch[level + 1]
  {
    if |branch| == level + 1 then branch + [0]
    else branch[level + 1 := branch[level + 1] + 1]
  }

  function Enter(s: Scope): (r: Scope)
    requires Valid(s)
    ensures Valid(r) && r.level == s.level + 1
  {
    Scope(EnterBranch(s.branch, s.level), s.level + 1)
  }

  /** Leaving a block: only the level goes down, the counters stay. */
  function Exit(s: Scope): (r: Scope)
    requires Valid(s) && s.level > 0
    ensures Valid(r) && r.level + 1 == s.level && r.branch == s.branch
  {
    Scope(s.branch, s.level - 1)
  }

  function StampAsWritten(s: Scope): (stamp: seq<nat>)
    requires Valid(s)
    ensures |stamp| == s.level && stamp <= s.branch
  {
    s.branch[..s.level]
  }

  predicate ProvedAsWritten(stamp: seq<nat>, s: Scope)
  {
    stamp <= s.branch
  }

  function StampIntended(s: Scope): (stamp: seq<nat>)
    requires Valid(s)
    ensures |stamp| == s.level + 1 && stamp <= s.branch
  {
    s.branch[..s.level + 1]
  }

  predicate ProvedIntended(stamp: seq<nat>, s: Scope)
    requires Valid(s)
  {
    stamp <= s.branch[..s.level + 1]
  }

  /** A formula accepted as written is proved at once, and so is every
      formula accepted in an enclosing block. */
  lemma AsWrittenStampProved(s: Scope)
    requires Valid(s)
    ensures ProvedAsWritten(StampAsWritten(s), s)
    ensures s.level > 0 ==> ProvedAsWritten(StampAsWritten(Exit(s)), s)
  {
  }

  /** The leak: a formula accepted as written inside a block (for example
      the block's own assumption) is still proved after the block is left,
      and in every block opened next to it. */
  lemma {:induction false} AsWrittenLeaks(s: Scope)
    requires Valid(s)
    ensures var inside := Enter(s);
      var stamp := StampAsWritten(inside);
      ProvedAsWritten(stamp, Exit(inside)) && ProvedAsWritten(stamp, Enter(Exit(inside)))
  {
    var inside := Enter(s);
    var stamp := StampAsWritten(inside);
    var sibling := Enter(Exit(inside));
    assert stamp == s.branch[..s.level + 1];
    assert sibling.branch[..s.level + 1] == inside.branch[..s.level + 1];
  }

  /** The leak at the top level: the assumption of a block opened at the
      top is proved there once the block is left. */
  lemma AsWrittenTopLevelLeak()
    ensures var top := Scope([0], 0);
      var inside := Enter(top);
      StampAsWritten(inside) == [0] && ProvedAsWritten([0], Exit(inside))
  {
  }

  /** The longer stamp on its own does not close the leak: leaving a block
      does not shorten the counters, so a stamp taken inside is still a
      prefix of all of them after the block is left. The comparison has to
      stop at the current depth as well. */
  lemma LongerStampAloneLeaks(s: Scope)
    requires Valid(s)
    ensures ProvedAsWritten(StampIntended(Enter(s)), Exit(Enter(s)))
  {
  }

  /** As intended, a formula accepted inside a block is proved there and
      neither after the block is left nor in the next block at that depth. */
  lemma {:induction false} IntendedForgetsClosedBlock(s: Scope)
    requires Valid(s)
    ensures var inside := Enter(s);
      var stamp := StampIntended(inside);
      ProvedIntended(stamp, inside) &&
      !ProvedIntended(stamp, Exit(inside)) && !ProvedIntended(stamp, Enter(Exit(inside)))
  {
    var inside := Enter(s);
    var stamp := StampIntended(inside);
    var sibling := Enter(Exit(inside));
    assert stamp[s.level + 1] != sibling.branch[s.level + 1];
  }

  /** As intended, a formula accepted in a block stays proved inside every
      block opened within it and after that block is left. */
  lemma {:induction false} IntendedKeepsOuter(s: Scope)
    requires Valid(s)
    ensures var stamp := StampIntended(s);
      ProvedIntended(stamp, Enter(s)) && ProvedIntended(stamp, Exit(Enter(s)))
  {
    var stamp := StampIntended(s);
    var inside := Enter(s);
    assert inside.branch[..s.level + 1] == s.branch[..s.level + 1];
    assert inside.branch[..inside.level + 1][..s.level + 1] == stamp;
  }
}
