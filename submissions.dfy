/**
 * The `submissions` table of src/database.py as far as the success rate needs
 * it: each submission's problem and its tri-state verdict.
 */
module Submissions {
  import opened Wrappers

  /** One row of `submissions`; `passed` is None when no verdict was recorded. */
  datatype Submission = Submission(problemId: string, code: string, language: string,
                                   aiFeedback: Option<string>, passed: Option<bool>)

  /** A success rate: passed submissions out of graded ones. */
  datatype Rate = Rate(passed: nat, total: nat)

  /** The submission is for `problemId` and has a verdict. */
  predicate Graded(s: Submission, problemId: string)
  {
    s.problemId == problemId && s.passed.Some?
  }

  /** `(passed, total)` over the graded submissions of one problem, in table order. */
  function SuccessRate(subs: seq<Submission>, problemId: string): (r: Rate)
    ensures r.passed <= r.total <= |subs|
    ensures r.total == 0 <==> forall i :: 0 <= i < |subs| ==> !Graded(subs[i], problemId)
    decreases |subs|
  {
    if subs == [] then Rate(0, 0)
    else
      var before := SuccessRate(subs[..|subs| - 1], problemId);
      var last := subs[|subs| - 1];
      assert forall i :: 0 <= i < |subs| - 1 ==> subs[..|subs| - 1][i] == subs[i];
      if Graded(last, problemId) then
        Rate(before.passed + (if last.passed.value then 1 else 0), before.total + 1)
      else before
  }

  /** Positions of the graded submissions of the problem. */
  function GradedAt(subs: seq<Submission>, problemId: string): set<nat>
  {
    set i: nat | i < |subs| && Graded(subs[i], problemId)
  }

  /** Positions of the passed submissions of the problem. */
  function PassedAt(subs: seq<Submission>, problemId: string): set<nat>
  {
    set i: nat | i < |subs| && Graded(subs[i], problemId) && subs[i].passed.value
  }

  /** The two numbers are exactly the counts of graded and of passed submissions of the problem. */
  lemma {:induction false} SuccessRateCounts(subs: seq<Submission>, problemId: string)
    ensures SuccessRate(subs, problemId) == Rate(|PassedAt(subs, problemId)|, |GradedAt(subs, problemId)|)
    decreases |subs|
  {
    if subs != [] {
      var n := |subs| - 1;
      SuccessRateCounts(subs[..n], problemId);
      PositionsSnoc(subs, problemId);
    }
  }

  /** The positions of a list are those of all but its last element, plus possibly the last. */
  lemma PositionsSnoc(subs: seq<Submission>, problemId: string)
    requires subs != []
    ensures var n := |subs| - 1;
            && |GradedAt(subs, problemId)| == |GradedAt(subs[..n], problemId)| + (if Graded(subs[n], problemId) then 1 else 0)
            && |PassedAt(subs, problemId)|
               == |PassedAt(subs[..n], problemId)| + (if Graded(subs[n], problemId) && subs[n].passed.value then 1 else 0)
  {
    GradedSnoc(subs, problemId);
    PassedSnoc(subs, problemId);
  }

  lemma GradedSnoc(subs: seq<Submission>, problemId: string)
    requires subs != []
    ensures var n := |subs| - 1;
            |GradedAt(subs, problemId)| == |GradedAt(subs[..n], problemId)| + (if Graded(subs[n], problemId) then 1 else 0)
  {
    var n := |subs| - 1;
    var init := subs[..n];
    assert forall i :: 0 <= i < n ==> init[i] == subs[i];
    var g := GradedAt(init, problemId);
    assert n !in g;
    if Graded(subs[n], problemId) {
      assert GradedAt(subs, problemId) == g + {n};
    } else {
      assert GradedAt(subs, problemId) == g;
    }
  }

  lemma PassedSnoc(subs: seq<Submission>, problemId: string)
    requires subs != []
    ensures var n := |subs| - 1;
            |PassedAt(subs, problemId)|
            == |PassedAt(subs[..n], problemId)| + (if Graded(subs[n], problemId) && subs[n].passed.value then 1 else 0)
  {
    var n := |subs| - 1;
    var init := subs[..n];
    assert forall i :: 0 <= i < n ==> init[i] == subs[i];
    var p := PassedAt(init, problemId);
    assert n !in p;
    if Graded(subs[n], problemId) && subs[n].passed.value {
      assert PassedAt(subs, problemId) == p + {n};
    } else {
      assert PassedAt(subs, problemId) == p;
    }
  }

  /** Saving a submission adds to the problem's counts only when it is graded and for that problem. */
  lemma AppendSubmission(subs: seq<Submission>, s: Submission, problemId: string)
    ensures var before := SuccessRate(subs, problemId);
            SuccessRate(subs + [s], problemId)
            == if Graded(s, problemId)
               then Rate(before.passed + (if s.passed.value then 1 else 0), before.total + 1)
               else before
  {
    assert (subs + [s])[..|subs|] == subs;
  }

  /** Three graded submissions, two passed: (2, 3); one ungraded submission: (0, 0). */
  lemma Examples(p: string)
    ensures SuccessRate([Submission(p, "code1", "python", Some("Good"), Some(true)),
                         Submission(p, "code2", "python", Some("Bad"), Some(false)),
                         Submission(p, "code3", "python", Some("Good"), Some(true))], p) == Rate(2, 3)
    ensures SuccessRate([Submission(p, "code", "python", None, None)], p) == Rate(0, 0)
    ensures SuccessRate([], p) == Rate(0, 0)
  {
    var a := Submission(p, "code1", "python", Some("Good"), Some(true));
    var b := Submission(p, "code2", "python", Some("Bad"), Some(false));
    var c := Submission(p, "code3", "python", Some("Good"), Some(true));
    assert [a][..0] == [];
    assert SuccessRate([a], p) == Rate(1, 1);
    assert [a, b][..1] == [a];
    assert SuccessRate([a, b], p) == Rate(1, 2);
    assert [a, b, c][..2] == [a, b];
  }
}
