/** The guess editor: the ordered list of oDAO member ids the player ranks,
    with the warning line shown under the member buttons. */
module GuessEditor {
  import opened Common
  import opened Seqs

  /** The warning message state; the texts differ only in which case fired. */
  datatype Warning = NoWarning | GuessFull | AlreadySelected(id: string)

  datatype Editor = Editor(guess: seq<string>, warning: Warning)

  /** The shape the editor keeps: distinct ids, at most one per consensus slot. */
  predicate GoodGuess(g: seq<string>)
  {
    NoDuplicates(g) && |g| <= ConsensusRequired
  }

  /** `handleAddMember`: refuses when the guess has exactly the consensus length or
      already holds `id`, setting the matching warning; otherwise appends `id` and
      clears the warning. */
  function Add(e: Editor, id: string): (r: Editor)
    ensures r.guess == e.guess <==> |e.guess| == ConsensusRequired || id in e.guess
    ensures e.guess <= r.guess && |r.guess| <= |e.guess| + 1
    ensures id in r.guess <==> id in e.guess || |e.guess| != ConsensusRequired
    ensures r.warning == NoWarning <==> r.guess != e.guess
    ensures |e.guess| == ConsensusRequired ==> r.warning == GuessFull
    ensures |e.guess| != ConsensusRequired && id in e.guess ==> r.warning == AlreadySelected(id)
  {
    if |e.guess| == ConsensusRequired then e.(warning := GuessFull)
    else if id in e.guess then e.(warning := AlreadySelected(id))
    else Editor(e.guess + [id], NoWarning)
  }

  /** `handleRemoveMember`: drops every occurrence of `id`, keeps the other ids in
      order, and clears the warning. */
  function Remove(e: Editor, id: string): (r: Editor)
    ensures id !in r.guess
    ensures forall x :: x != id ==> multiset(r.guess)[x] == multiset(e.guess)[x]
    ensures IsSubsequence(r.guess, e.guess)
    ensures r.warning == NoWarning
  {
    FilterCounts(e.guess, x => x != id);
    Editor(Filter(e.guess, x => x != id), NoWarning)
  }

  /** The position `handleMoveMember` swaps with:
      `Math.max(Math.min(idx + move, length - 1), 0)`. */
  function MoveTarget(len: nat, idx: int, move: int): (t: int)
    requires len > 0
    ensures 0 <= t < len
    ensures 0 <= idx + move < len ==> t == idx + move
    ensures idx + move < 0 ==> t == 0
    ensures idx + move >= len ==> t == len - 1
  {
    var up := if idx + move < len - 1 then idx + move else len - 1;
    if up < 0 then 0 else up
  }

  /** `handleMoveMember`: swaps the id at `idx` with the id at the clamped target
      position; every other position and the warning are unchanged. */
  function Move(e: Editor, idx: int, move: int): (r: Editor)
    requires 0 <= idx < |e.guess|
    ensures |r.guess| == |e.guess|
    ensures multiset(r.guess) == multiset(e.guess)
    ensures var t := MoveTarget(|e.guess|, idx, move);
      r.guess[idx] == e.guess[t] && r.guess[t] == e.guess[idx] &&
      forall k :: 0 <= k < |e.guess| && k != idx && k != t ==> r.guess[k] == e.guess[k]
    ensures r.warning == e.warning
  {
    var t := MoveTarget(|e.guess|, idx, move);
    var g := e.guess;
    var g' := g[t := g[idx]][idx := g[t]];
    SwapPermutes(g, idx, t);
    e.(guess := g')
  }

  /** Swapping two positions permutes a sequence. */
  lemma SwapPermutes<T>(g: seq<T>, i: int, j: int)
    requires 0 <= i < |g| && 0 <= j < |g|
    ensures multiset(g[j := g[i]][i := g[j]]) == multiset(g)
  {
    if i != j {
      var g1 := g[j := g[i]];
      assert multiset(g1) == multiset(g) - multiset{g[j]} + multiset{g[i]};
    }
  }

  /** `handleClearMembers`: empties the guess; the warning is left as it was. */
  function Clear(e: Editor): (r: Editor)
    ensures |r.guess| == 0
    ensures r.warning == e.warning
  {
    e.(guess := [])
  }

  /** Moving past either end of the list leaves the editor unchanged. */
  lemma MoveAtBoundary(e: Editor, idx: int, move: int)
    requires 0 <= idx < |e.guess|
    requires (idx == 0 && move <= 0) || (idx == |e.guess| - 1 && move >= 0)
    ensures Move(e, idx, move) == e
  {
    assert MoveTarget(|e.guess|, idx, move) == idx;
  }

  /** Moving a member to position `t` and then moving it back restores the editor. */
  lemma MoveUndo(e: Editor, idx: int, move: int)
    requires 0 <= idx < |e.guess|
    ensures var t := MoveTarget(|e.guess|, idx, move);
      Move(Move(e, idx, move), t, idx - t) == e
  {
    var t := MoveTarget(|e.guess|, idx, move);
    var e1 := Move(e, idx, move);
    assert MoveTarget(|e1.guess|, t, idx - t) == idx;
    var e2 := Move(e1, t, idx - t);
    assert e2.guess == e.guess;
  }

  /** Removing a member that was just added restores the previous guess. */
  lemma RemoveUndoesAdd(e: Editor, id: string)
    requires |e.guess| != ConsensusRequired && id !in e.guess
    ensures Remove(Add(e, id), id).guess == e.guess
  {
    var g := Add(e, id).guess;
    assert g == e.guess + [id];
    assert Filter(g, x => x != id) == e.guess by {
      FilterKeepsAll(e.guess, x => x != id);
      FilterAppend(e.guess, [id], x => x != id);
    }
  }

  /** The four editing actions the selection page offers. */
  datatype Step = AddStep(id: string) | RemoveStep(id: string) | MoveStep(idx: int, move: int) | ClearStep

  /** A move is offered only on a row of the rendered guess. */
  predicate Enabled(e: Editor, s: Step)
  {
    s.MoveStep? ==> 0 <= s.idx < |e.guess|
  }

  function Apply(e: Editor, s: Step): Editor
    requires Enabled(e, s)
  {
    match s
    case AddStep(id) => Add(e, id)
    case RemoveStep(id) => Remove(e, id)
    case MoveStep(idx, move) => Move(e, idx, move)
    case ClearStep => Clear(e)
  }

  /** Every step of `steps` is enabled in the state it is applied to. */
  predicate CanRun(e: Editor, steps: seq<Step>)
    decreases |steps|
  {
    |steps| == 0 || (Enabled(e, steps[0]) && CanRun(Apply(e, steps[0]), steps[1..]))
  }

  function Run(e: Editor, steps: seq<Step>): Editor
    requires CanRun(e, steps)
    decreases |steps|
  {
    if |steps| == 0 then e else Run(Apply(e, steps[0]), steps[1..])
  }

  /** Each editing action keeps the guess duplicate-free and within the consensus length. */
  lemma StepKeepsGoodGuess(e: Editor, s: Step)
    requires GoodGuess(e.guess) && Enabled(e, s)
    ensures GoodGuess(Apply(e, s).guess)
  {
    match s
    case AddStep(id) =>
      var r := Add(e, id);
      if r.guess != e.guess {
        assert r.guess == e.guess + [id];
      }
    case RemoveStep(id) =>
      FilterNoDuplicates(e.guess, x => x != id);
      FilterLength(e.guess, x => x != id);
    case MoveStep(idx, move) =>
      MoveKeepsNoDuplicates(e, idx, move);
    case ClearStep =>
  }

  lemma MoveKeepsNoDuplicates(e: Editor, idx: int, move: int)
    requires 0 <= idx < |e.guess| && NoDuplicates(e.guess)
    ensures NoDuplicates(Move(e, idx, move).guess)
  {
    var t := MoveTarget(|e.guess|, idx, move);
    var g := e.guess;
    var r := Move(e, idx, move).guess;
    // position k of the result holds g[Swap(k)], and the swap is injective
    forall i, j | 0 <= i < j < |r|
      ensures r[i] != r[j]
    {
      var si := if i == idx then t else if i == t then idx else i;
      var sj := if j == idx then t else if j == t then idx else j;
      assert r[i] == g[si] && r[j] == g[sj];
      assert si != sj;
    }
  }

  /** Any run of editing actions from a good guess ends in a good guess. */
  lemma {:induction false} RunKeepsGoodGuess(e: Editor, steps: seq<Step>)
    requires GoodGuess(e.guess) && CanRun(e, steps)
    ensures GoodGuess(Run(e, steps).guess)
    decreases |steps|
  {
    if |steps| > 0 {
      StepKeepsGoodGuess(e, steps[0]);
      RunKeepsGoodGuess(Apply(e, steps[0]), steps[1..]);
    }
  }
}
