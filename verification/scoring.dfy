/** The scorer (`scoringArray`): pairs each guessed position with the submission at
    the same position among those carrying the most common merkle root, and awards
    full or partial credit. Points are counted in quarters: 1 point is 4, 0.25 is 1. */
module Scoring {
  import opened Common
  import opened Seqs
  import opened Submissions

  /** The root `scoringArray` starts from, and keeps when there are no submissions. */
  const NoRoot: string := "0x"

  /** One scorecard row: the guessed id, the submission at the same position (if any)
      and the quarter-points awarded. */
  datatype Entry = Entry(guess: string, odao: Option<Submission>, quarters: nat)

  /** A root `scoringArray` can pick: "0x" for an empty list, otherwise any root with
      the highest count. Which of several tied roots the source picks depends on the
      JavaScript engine's sort, so the scorer is stated for every such choice. */
  predicate IsWinningRoot(subs: seq<Submission>, root: string)
  {
    if |subs| == 0 then root == NoRoot
    else root in RootsOf(subs) && forall x :: x in RootsOf(subs) ==> RootCount(subs, x) <= RootCount(subs, root)
  }

  /** One such choice: the first root, in listing order, whose count is highest. */
  function WinningRoot(subs: seq<Submission>): (root: string)
    ensures IsWinningRoot(subs, root)
  {
    if |subs| == 0 then NoRoot else MostCommon(RootsOf(subs))
  }

  function HasRoot(root: string): Submission -> bool
  {
    (s: Submission) => s.merkleRoot == root
  }

  /** `validSubmissions`: the submissions carrying `root`, in their listing order. */
  function Truth(subs: seq<Submission>, root: string): (truth: seq<Submission>)
    ensures forall i :: 0 <= i < |truth| ==> truth[i].merkleRoot == root
    ensures forall s :: s in truth <==> s in subs && s.merkleRoot == root
    ensures IsSubsequence(truth, subs)
  {
    Filter(subs, HasRoot(root))
  }

  /** The list of truths is as long as its root's count. */
  lemma {:induction false} TruthLength(subs: seq<Submission>, root: string)
    ensures |Truth(subs, root)| == RootCount(subs, root)
  {
    if |subs| > 0 {
      TruthLength(subs[1..], root);
      assert Records(subs) == [Unannotated(subs[0])] + Records(subs[1..]);
    }
  }

  /** Guess position `i` names the member of truth position `j`. */
  predicate Names(guess: seq<string>, truth: seq<Submission>, i: int, j: int)
    requires 0 <= i < |guess|
  {
    0 <= j < |truth| && guess[i] == truth[j].id
  }

  /** The per-position rule as the source writes it. The right-hand neighbour is read
      through the scorecard (`result[i + 1]`), so it is only seen when the guess has a
      position `i + 1` too. */
  function EntryQuarters(guess: seq<string>, truth: seq<Submission>, i: int): (q: nat)
    requires 0 <= i < |guess|
    ensures q == 0 || q == 1 || q == 4
    ensures q == 4 <==> Names(guess, truth, i, i)
    ensures q == 1 <==> (!Names(guess, truth, i, i) &&
                         (Names(guess, truth, i, i - 1) || (i + 1 < |guess| && Names(guess, truth, i, i + 1))))
  {
    if i < |truth| && guess[i] == truth[i].id then 4
    else if 0 < i && i - 1 < |truth| && guess[i] == truth[i - 1].id then 1
    else if i + 1 < |guess| && i + 1 < |truth| && guess[i] == truth[i + 1].id then 1
    else 0
  }

  /** The rows for a guess against a truth list: one per guessed position, paired
      with the truth at the same position and scored by the written rule. */
  function Scorecard(guess: seq<string>, truth: seq<Submission>): (r: seq<Entry>)
    ensures |r| == |guess|
    ensures forall i :: 0 <= i < |r| ==> r[i].guess == guess[i]
    ensures forall i :: 0 <= i < |r| ==> r[i].odao == (if i < |truth| then Some(truth[i]) else None)
    ensures forall i :: 0 <= i < |r| ==> r[i].quarters == EntryQuarters(guess, truth, i)
  {
    seq(|guess|, i requires 0 <= i < |guess| =>
      Entry(guess[i], if i < |truth| then Some(truth[i]) else None, EntryQuarters(guess, truth, i)))
  }

  /** `scoringArray` for a root the source may pick: the scorecard against the
      submissions carrying that root. */
  function ScoringArray(guess: seq<string>, subs: seq<Submission>, root: string): (r: seq<Entry>)
    requires IsWinningRoot(subs, root)
    ensures |r| == |guess|
    ensures forall i :: 0 <= i < |r| ==> r[i].guess == guess[i]
    ensures forall i :: 0 <= i < |r| ==>
      r[i].odao == (if i < |Truth(subs, root)| then Some(Truth(subs, root)[i]) else None)
    ensures forall i :: 0 <= i < |r| ==> r[i].quarters == EntryQuarters(guess, Truth(subs, root), i)
  {
    Scorecard(guess, Truth(subs, root))
  }

  /** The score line's `reduce`: the sum of the rows' points. */
  function Total(es: seq<Entry>): nat
  {
    if |es| == 0 then 0 else es[0].quarters + Total(es[1..])
  }

  lemma {:induction false} TotalOfConstant(es: seq<Entry>, c: nat)
    requires forall i :: 0 <= i < |es| ==> es[i].quarters == c
    ensures Total(es) == c * |es|
  {
    if |es| > 0 {
      TotalOfConstant(es[1..], c);
    }
  }

  lemma {:induction false} TotalAtMost(es: seq<Entry>, c: nat)
    requires forall i :: 0 <= i < |es| ==> es[i].quarters <= c
    ensures Total(es) <= c * |es|
  {
    if |es| > 0 {
      TotalAtMost(es[1..], c);
    }
  }

  lemma {:induction false} TotalSplitLast(es: seq<Entry>)
    requires |es| > 0
    ensures Total(es) == Total(es[..|es| - 1]) + es[|es| - 1].quarters
  {
    if |es| > 1 {
      TotalSplitLast(es[1..]);
      assert es[1..][..|es| - 2] == es[..|es| - 1][1..];
    }
  }

  /** A total never exceeds one point per guessed position. */
  lemma TotalBound(guess: seq<string>, truth: seq<Submission>)
    ensures Total(Scorecard(guess, truth)) <= 4 * |guess|
  {
    TotalAtMost(Scorecard(guess, truth), 4);
  }

  /** A guess naming the truth in order scores one point per position. */
  lemma PerfectGuess(guess: seq<string>, truth: seq<Submission>)
    requires |guess| <= |truth|
    requires forall i :: 0 <= i < |guess| ==> guess[i] == truth[i].id
    ensures Total(Scorecard(guess, truth)) == 4 * |guess|
  {
    var es := Scorecard(guess, truth);
    forall i | 0 <= i < |es| ensures es[i].quarters == 4 {
      assert Names(guess, truth, i, i);
    }
    TotalOfConstant(es, 4);
  }

  /** With no submissions the truth is empty and every position scores nothing. */
  lemma NoSubmissionsScoreZero(guess: seq<string>, root: string)
    requires IsWinningRoot([], root)
    ensures Total(ScoringArray(guess, [], root)) == 0
  {
    var es := ScoringArray(guess, [], root);
    assert |Truth([], root)| == 0;
    TotalOfConstant(es, 0);
  }

  /** A position more than one past the end of the truth has no submission and scores nothing. */
  lemma PastTheTruthScoresZero(guess: seq<string>, truth: seq<Submission>, i: int)
    requires |truth| < i < |guess|
    ensures Scorecard(guess, truth)[i].quarters == 0
    ensures Scorecard(guess, truth)[i].odao == None
  {
  }

  /** A guess sharing no id with the truth scores nothing. */
  lemma NothingInCommonScoresZero(guess: seq<string>, truth: seq<Submission>)
    requires forall i, j :: 0 <= i < |guess| && 0 <= j < |truth| ==> guess[i] != truth[j].id
    ensures Total(Scorecard(guess, truth)) == 0
  {
    var es := Scorecard(guess, truth);
    forall i | 0 <= i < |es| ensures es[i].quarters == 0 {
      assert !Names(guess, truth, i, i) && !Names(guess, truth, i, i - 1) && !Names(guess, truth, i, i + 1);
    }
    TotalOfConstant(es, 0);
  }

  /** No member appears twice in the truth. */
  predicate DistinctIds(truth: seq<Submission>)
  {
    forall i, j :: 0 <= i < j < |truth| ==> truth[i].id != truth[j].id
  }

  /** A guess one step ahead of the truth everywhere (guessed position `i` names truth
      position `i + 1`) earns a quarter at every position but the last, whose right-hand
      neighbour the source does not look at. */
  lemma OneAheadScores(guess: seq<string>, truth: seq<Submission>)
    requires 0 < |guess| < |truth|
    requires DistinctIds(truth)
    requires forall i :: 0 <= i < |guess| ==> guess[i] == truth[i + 1].id
    ensures Total(Scorecard(guess, truth)) == |guess| - 1
  {
    var es := Scorecard(guess, truth);
    var n := |guess|;
    forall i | 0 <= i < n - 1 ensures es[i].quarters == 1 {
      assert Names(guess, truth, i, i + 1);
      assert !Names(guess, truth, i, i);
    }
    assert es[n - 1].quarters == 0 by {
      var i := n - 1;
      assert !Names(guess, truth, i, i);
      assert !Names(guess, truth, i, i - 1);
    }
    TotalSplitLast(es);
    TotalOfConstant(es[..n - 1], 1);
  }

  /** A submission for the worked example below: every one carries root "r". */
  function ExampleSubmission(id: string, timestamp: int): Submission
  {
    Submission("0x" + id, timestamp, "0xtx" + id, "r", id, false)
  }

  /** The submissions of the worked example: A, C and B, in time order, all on root "r". */
  function ExampleSubmissions(): seq<Submission>
  {
    [ExampleSubmission("A", 1), ExampleSubmission("C", 2), ExampleSubmission("B", 3)]
  }

  /** In the worked example "r" is the winning root and the truth is every submission. */
  lemma ExampleTruth()
    ensures IsWinningRoot(ExampleSubmissions(), "r")
    ensures Truth(ExampleSubmissions(), "r") == ExampleSubmissions()
  {
    var subs := ExampleSubmissions();
    assert Records(subs) == [Unannotated(subs[0]), Unannotated(subs[1]), Unannotated(subs[2])];
    assert RootsOf(subs) == ["r", "r", "r"];
    FilterKeepsAll(subs, HasRoot("r"));
  }

  /** Guess A, B, C against truth A, C, B: A is exact, B and C each sit next to their
      true position, so the rows score 1, 0.25 and 0.25, and the total is 1.5. */
  lemma ExampleScorecard()
    ensures IsWinningRoot(ExampleSubmissions(), "r")
    ensures var es := ScoringArray(["A", "B", "C"], ExampleSubmissions(), "r");
      es[0].quarters == 4 && es[1].quarters == 1 && es[2].quarters == 1 && Total(es) == 6
  {
    ExampleTruth();
    var truth := ExampleSubmissions();
    var guess := ["A", "B", "C"];
    assert ScoringArray(guess, truth, "r") == Scorecard(guess, truth);
    ExampleRows(guess, truth);
  }

  /** The rows of the worked example, scored against the truth list directly. */
  lemma ExampleRows(guess: seq<string>, truth: seq<Submission>)
    requires guess == ["A", "B", "C"] && truth == ExampleSubmissions()
    ensures var es := Scorecard(guess, truth);
      es[0].quarters == 4 && es[1].quarters == 1 && es[2].quarters == 1 && Total(es) == 6
  {
    assert Names(guess, truth, 0, 0);
    assert !Names(guess, truth, 1, 1) && Names(guess, truth, 1, 2);
    assert !Names(guess, truth, 2, 2) && Names(guess, truth, 2, 1);
    var es := Scorecard(guess, truth);
    assert es[1..][1..][1..] == [];
    assert Total(es[1..][1..]) == es[2].quarters;
    assert Total(es[1..]) == es[1].quarters + es[2].quarters;
  }

  /** The rule the scorecard's legend promises ("0.25 points for guess that is off by 1
      position"), with the right-hand neighbour read from the truth itself. */
  function EntryQuartersIntended(guess: seq<string>, truth: seq<Submission>, i: int): (q: nat)
    requires 0 <= i < |guess|
    ensures q == 0 || q == 1 || q == 4
    ensures q == 4 <==> i < |truth| && guess[i] == truth[i].id
    ensures q == 1 <==> (!(i < |truth| && guess[i] == truth[i].id) &&
                         exists j :: 0 <= j < |truth| && (j == i - 1 || j == i + 1) && guess[i] == truth[j].id)
  {
    if Names(guess, truth, i, i) then 4
    else if Names(guess, truth, i, i - 1) then 1
    else if Names(guess, truth, i, i + 1) then 1
    else 0
  }

  /** The two rules agree everywhere except at the last guessed position. */
  lemma IntendedAgreesBeforeLast(guess: seq<string>, truth: seq<Submission>, i: int)
    requires 0 <= i < |guess| - 1
    ensures EntryQuarters(guess, truth, i) == EntryQuartersIntended(guess, truth, i)
  {
  }

  /** The last guessed position misses the quarter for naming the next truth: guessing
      just B against truth A, B scores 0, where the legend's rule gives 0.25. */
  lemma LastPositionMissesRightNeighbour()
    ensures EntryQuarters(["B"], [ExampleSubmission("A", 1), ExampleSubmission("B", 2)], 0) == 0
    ensures EntryQuartersIntended(["B"], [ExampleSubmission("A", 1), ExampleSubmission("B", 2)], 0) == 1
  {
    var truth := [ExampleSubmission("A", 1), ExampleSubmission("B", 2)];
    assert !Names(["B"], truth, 0, 0);
    assert Names(["B"], truth, 0, 1);
  }

  /** The scorecard with the intended rule at every position. */
  function ScorecardIntended(guess: seq<string>, truth: seq<Submission>): (r: seq<Entry>)
    ensures |r| == |guess|
    ensures forall i :: 0 <= i < |r| ==> r[i].guess == guess[i]
    ensures forall i :: 0 <= i < |r| ==> r[i].odao == (if i < |truth| then Some(truth[i]) else None)
    ensures forall i :: 0 <= i < |r| ==> r[i].quarters == EntryQuartersIntended(guess, truth, i)
  {
    seq(|guess|, i requires 0 <= i < |guess| =>
      Entry(guess[i], if i < |truth| then Some(truth[i]) else None, EntryQuartersIntended(guess, truth, i)))
  }

  /** Under the intended rule a guess one step ahead of the truth earns a quarter at
      every position, the last one included. */
  lemma OneAheadScoresIntended(guess: seq<string>, truth: seq<Submission>)
    requires |guess| < |truth|
    requires DistinctIds(truth)
    requires forall i :: 0 <= i < |guess| ==> guess[i] == truth[i + 1].id
    ensures Total(ScorecardIntended(guess, truth)) == |guess|
  {
    var es := ScorecardIntended(guess, truth);
    forall i | 0 <= i < |es| ensures es[i].quarters == 1 {
      assert guess[i] == truth[i + 1].id;
      assert !(i < |truth| && guess[i] == truth[i].id);
    }
    TotalOfConstant(es, 1);
  }

  predicate IsValidSubmission(s: Submission)
  {
    s.valid
  }

  /** How many submissions carry the consensus flag. */
  function ValidCount(subs: seq<Submission>): nat
  {
    |Filter(subs, IsValidSubmission)|
  }

  /** The score line's test as written: the score is final when exactly
      `ConsensusRequired` submissions are flagged valid. */
  predicate ScoreIsFinalAsWritten(subs: seq<Submission>)
  {
    ValidCount(subs) == ConsensusRequired
  }

  /** The test as evidently intended: at least `ConsensusRequired` valid submissions. */
  predicate ScoreIsFinal(subs: seq<Submission>)
  {
    ValidCount(subs) >= ConsensusRequired
  }

  /** With flags that match the counts (as the normaliser produces them), the intended
      test says exactly whether the root being scored reached consensus. */
  lemma FinalIffConsensus(subs: seq<Submission>, root: string)
    requires ValidityMatchesCounts(subs)
    requires IsWinningRoot(subs, root)
    ensures ScoreIsFinal(subs) <==> RootCount(subs, root) >= ConsensusRequired
  {
    var valid := Filter(subs, IsValidSubmission);
    if ScoreIsFinal(subs) {
      assert valid[0] in subs;
      var i :| 0 <= i < |subs| && subs[i] == valid[0];
      assert RootsOf(subs)[i] == subs[i].merkleRoot;
    }
    if RootCount(subs, root) >= ConsensusRequired {
      TruthLength(subs, root);
      forall i | 0 <= i < |subs| && HasRoot(root)(subs[i])
        ensures IsValidSubmission(subs[i])
      {
      }
      FilterMonotone(subs, HasRoot(root), IsValidSubmission);
    }
  }

  /** Once more than `ConsensusRequired` submissions agree, the test as written reports
      the score as provisional although consensus was reached. */
  lemma FinalAsWrittenMissesLargeConsensus(subs: seq<Submission>)
    requires |subs| > ConsensusRequired
    requires forall i :: 0 <= i < |subs| ==> subs[i].valid
    ensures !ScoreIsFinalAsWritten(subs)
    ensures ScoreIsFinal(subs)
  {
    FilterKeepsAll(subs, IsValidSubmission);
  }
}
