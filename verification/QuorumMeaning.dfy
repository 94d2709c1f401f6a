/** A decision told by the answers: which are an operator's, what its vote is, and why nothing is believed. */
module QuorumMeaning {
  import opened Bytes
  import opened Sorting
  import opened Quorum

  // ---------------------------------------------------------------- votes

  /** However a list is put in order, its middle is the entry at half its length, rounded down. */
  lemma {:induction false} MiddleIs(values: seq<int>, ordered: seq<int>)
    requires values != [] && Sorted(ordered) && multiset(ordered) == multiset(values)
    ensures |ordered| == |values| && Middle(values) == ordered[|values| / 2]
  {
    SortIsSorted(values);
    SortedIsUnique(Sort(values), ordered);
    SameLength(values, ordered);
  }

  /** The positions, in order, of one operator's answers. */
  ghost predicate AnswersOf(answers: seq<Answer>, from: nat, operator: Name, which: seq<nat>) {
    && (forall k: nat :: k in which <==> from <= k < |answers| && answers[k].operator == operator)
    && forall i, j :: 0 <= i < j < |which| ==> which[i] < which[j]
  }

  ghost predicate SecondsAt(answers: seq<Answer>, which: seq<nat>, seconds: seq<int>) {
    |seconds| == |which| && forall m :: 0 <= m < |which| ==> which[m] < |answers| && seconds[m] == answers[which[m]].seconds
  }

  lemma {:induction false} AnswersCons(answers: seq<Answer>, from: nat, operator: Name, rest: seq<nat>)
    requires from < |answers| && AnswersOf(answers, from + 1, operator, rest)
    ensures AnswersOf(answers, from, operator, if answers[from].operator == operator then [from] + rest else rest)
  {
    if answers[from].operator == operator {
      var which := [from] + rest;
      forall i, j | 0 <= i < j < |which| ensures which[i] < which[j] { assert which[j] in rest; }
      forall k: nat ensures k in which <==> k == from || k in rest {}
    }
  }

  lemma {:induction false} SecondsCons(answers: seq<Answer>, from: nat, rest: seq<nat>, seconds: seq<int>)
    requires from < |answers| && SecondsAt(answers, rest, seconds)
    ensures SecondsAt(answers, [from] + rest, [answers[from].seconds] + seconds) && [] + seconds == seconds
  {
  }

  /** An operator's readings are the seconds of its answers, each once, in order. */
  lemma {:induction false} ReadingsAt(answers: seq<Answer>, from: nat, operator: Name) returns (which: seq<nat>)
    requires from <= |answers|
    ensures AnswersOf(answers, from, operator, which) && SecondsAt(answers, which, Readings(answers[from..], operator))
    decreases |answers| - from
  {
    which := [];
    if from < |answers| {
      var rest := ReadingsAt(answers, from + 1, operator);
      assert answers[from..][1..] == answers[from + 1..] && answers[from..][0] == answers[from];
      AnswersCons(answers, from, operator, rest);
      which := if answers[from].operator == operator then [from] + rest else rest;
      SecondsCons(answers, from, rest, Readings(answers[from + 1..], operator));
    }
  }

  // ---------------------------------------------------------------- the decision

  ghost predicate Answered(answers: seq<Answer>, operator: Name) {
    exists a <- answers :: a.operator == operator
  }

  /** Two of an operator's answers are further apart than the tolerance. */
  ghost predicate AtOdds(answers: seq<Answer>, operator: Name, tolerance: int) {
    exists a <- answers, b <- answers :: a.operator == operator == b.operator && a.seconds - b.seconds > tolerance
  }

  lemma {:induction false} AnsweredIs(answers: seq<Answer>, operator: Name)
    ensures Readings(answers, operator) != [] <==> Answered(answers, operator)
  {
    var readings := Readings(answers, operator);
    if readings != [] { ReadingsAreAnswers(answers, operator, readings[0]); }
    if Answered(answers, operator) {
      var a :| a in answers && a.operator == operator;
      ReadingsAreAnswers(answers, operator, a.seconds);
    }
  }

  lemma {:induction false} AtOddsIs(answers: seq<Answer>, operator: Name, tolerance: int)
    requires Readings(answers, operator) != []
    ensures Spread(Readings(answers, operator), tolerance) <==> AtOdds(answers, operator, tolerance)
  {
    var readings := Readings(answers, operator);
    if Spread(readings, tolerance) {
      var high, low := Max(readings), Min(readings);
      ReadingsAreAnswers(answers, operator, high);
      ReadingsAreAnswers(answers, operator, low);
    }
    if AtOdds(answers, operator, tolerance) {
      var a, b :| a in answers && b in answers && a.operator == operator == b.operator && a.seconds - b.seconds > tolerance;
      ReadingsAreAnswers(answers, operator, a.seconds);
      ReadingsAreAnswers(answers, operator, b.seconds);
    }
  }

  ghost predicate SilentAt(sampled: seq<Name>, from: nat, answers: seq<Answer>, which: seq<nat>) {
    && (forall k: nat :: k in which <==> from <= k < |sampled| && !Answered(answers, sampled[k]))
    && forall i, j :: 0 <= i < j < |which| ==> which[i] < which[j]
  }

  ghost predicate NamesAt(sampled: seq<Name>, which: seq<nat>, names: seq<Name>) {
    |names| == |which| && forall m :: 0 <= m < |which| ==> which[m] < |sampled| && names[m] == sampled[which[m]]
  }

  lemma {:induction false} SilentCons(sampled: seq<Name>, from: nat, answers: seq<Answer>, rest: seq<nat>)
    requires from < |sampled| && SilentAt(sampled, from + 1, answers, rest)
    ensures SilentAt(sampled, from, answers, if Answered(answers, sampled[from]) then rest else [from] + rest)
  {
    if !Answered(answers, sampled[from]) {
      var which := [from] + rest;
      forall i, j | 0 <= i < j < |which| ensures which[i] < which[j] { assert which[j] in rest; }
      forall k: nat ensures k in which <==> k == from || k in rest {}
    }
  }

  lemma {:induction false} NamesCons(sampled: seq<Name>, from: nat, rest: seq<nat>, names: seq<Name>)
    requires from < |sampled| && NamesAt(sampled, rest, names)
    ensures NamesAt(sampled, [from] + rest, [sampled[from]] + names) && [] + names == names
  {
  }

  lemma {:induction false} SilentIs(sampled: seq<Name>, from: nat, answers: seq<Answer>) returns (which: seq<nat>)
    requires from <= |sampled|
    ensures SilentAt(sampled, from, answers, which) && NamesAt(sampled, which, SilentOf(sampled[from..], answers))
    decreases |sampled| - from
  {
    which := [];
    if from < |sampled| {
      var rest := SilentIs(sampled, from + 1, answers);
      assert sampled[from..][1..] == sampled[from + 1..] && sampled[from..][0] == sampled[from];
      AnsweredIs(answers, sampled[from]);
      SilentCons(sampled, from, answers, rest);
      which := if Answered(answers, sampled[from]) then rest else [from] + rest;
      NamesCons(sampled, from, rest, SilentOf(sampled[from + 1..], answers));
    }
  }

  /** The first sampled operator whose own answers are at odds. */
  ghost predicate FirstAtOdds(sampled: seq<Name>, answers: seq<Answer>, tolerance: int, k: nat) {
    k < |sampled| && AtOdds(answers, sampled[k], tolerance) && forall j :: 0 <= j < k ==> !AtOdds(answers, sampled[j], tolerance)
  }

  lemma {:induction false} FirstLater(sampled: seq<Name>, answers: seq<Answer>, tolerance: int, k: nat)
    requires sampled != [] && !AtOdds(answers, sampled[0], tolerance) && FirstAtOdds(sampled[1..], answers, tolerance, k)
    ensures FirstAtOdds(sampled, answers, tolerance, k + 1) && sampled[k + 1] == sampled[1..][k]
  {
    forall j | 0 <= j < k + 1 ensures !AtOdds(answers, sampled[j], tolerance) {
      if j > 0 { assert sampled[j] == sampled[1..][j - 1]; }
    }
  }

  /** A vote for each, none of them at odds with itself. */
  ghost predicate VotesOf(sampled: seq<Name>, answers: seq<Answer>, tolerance: int, votes: seq<int>)
    requires forall p <- sampled :: Readings(answers, p) != []
  {
    |votes| == |sampled| && forall j :: 0 <= j < |sampled| ==>
      !AtOdds(answers, sampled[j], tolerance) && votes[j] == Middle(Readings(answers, sampled[j]))
  }

  lemma {:induction false} VotesCons(sampled: seq<Name>, answers: seq<Answer>, tolerance: int, rest: seq<int>)
    requires sampled != [] && (forall p <- sampled :: Readings(answers, p) != []) && (forall p <- sampled[1..] :: Readings(answers, p) != [])
    requires !AtOdds(answers, sampled[0], tolerance) && VotesOf(sampled[1..], answers, tolerance, rest)
    ensures VotesOf(sampled, answers, tolerance, [Middle(Readings(answers, sampled[0]))] + rest)
  {
    assert forall j :: 0 < j < |sampled| ==> sampled[j] == sampled[1..][j - 1];
  }

  lemma {:induction false} VotesAre(sampled: seq<Name>, answers: seq<Answer>, tolerance: int) returns (k: nat)
    requires forall p <- sampled :: Readings(answers, p) != []
    ensures var r := Votes(sampled, answers, tolerance);
            if r.Err? then FirstAtOdds(sampled, answers, tolerance, k) && r.error == DisagreesWithItself(sampled[k])
            else VotesOf(sampled, answers, tolerance, r.value)
  {
    k := 0;
    if sampled != [] {
      assert sampled[0] in sampled && forall p <- sampled[1..] :: p in sampled;
      AtOddsIs(answers, sampled[0], tolerance);
      if !AtOdds(answers, sampled[0], tolerance) {
        k := VotesAre(sampled[1..], answers, tolerance);
        var rest := Votes(sampled[1..], answers, tolerance);
        if rest.Err? { FirstLater(sampled, answers, tolerance, k); } else { VotesCons(sampled, answers, tolerance, rest.value); }
        k := k + 1;
      }
    }
  }

  /** Every decision: nothing sampled; the sampled operators that did not answer, in order; the first whose
      own answers are further apart than the tolerance; votes, each the middle of an operator's readings,
      further apart than it; or the middle of the votes. */
  lemma {:induction false} DecisionIs(sampled: seq<Name>, answers: seq<Answer>, tolerance: int)
    returns (which: seq<nat>, k: nat, votes: seq<int>)
    ensures SilentAt(sampled, 0, answers, which)
    ensures var r := Decided(sampled, answers, tolerance);
            if sampled == [] then r == Err(NoneSampled)
            else if which != [] then r.Err? && r.error.Silent? && NamesAt(sampled, which, r.error.operators)
            else if exists p <- sampled :: AtOdds(answers, p, tolerance) then
              FirstAtOdds(sampled, answers, tolerance, k) && r == Err(DisagreesWithItself(sampled[k]))
            else
              && |votes| == |sampled| && (forall j :: 0 <= j < |sampled| ==>
                   Readings(answers, sampled[j]) != [] && votes[j] == Middle(Readings(answers, sampled[j])))
              && r == if exists a <- votes, b <- votes :: a - b > tolerance then Err(Disagree) else Ok(Middle(votes))
  {
    which := SilentIs(sampled, 0, answers);
    assert sampled[0..] == sampled;
    k, votes := 0, [];
    NobodySilent(sampled, answers);
    if sampled != [] && which == [] {
      k := VotesAre(sampled, answers, tolerance);
      forall j | 0 <= j < |sampled| ensures Readings(answers, sampled[j]) != [] { assert sampled[j] in sampled; }
      if Votes(sampled, answers, tolerance).Ok? {
        votes := Votes(sampled, answers, tolerance).value;
        SpreadIs(votes, tolerance);
      } else {
        assert sampled[k] in sampled;
      }
    }
  }

  lemma {:induction false} SpreadIs(values: seq<int>, tolerance: int)
    requires values != []
    ensures Spread(values, tolerance) <==> exists a <- values, b <- values :: a - b > tolerance
  {
    if Spread(values, tolerance) { assert Max(values) in values && Min(values) in values; }
  }
}
