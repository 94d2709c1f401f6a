/** Drawing the operators to ask, and making one second of what they say. */
module Quorum {
  import opened Bytes
  import opened Sorting
  import opened Wire

  type Name = string

  /** What one pair brought back. It votes as its operator; the endpoint is only for messages. */
  datatype Answer = Answer(operator: Name, endpoint: Name, seconds: int)

  datatype QuorumError = NoneSampled | Silent(operators: seq<Name>) | DisagreesWithItself(operator: Name) | Disagree

  // ---------------------------------------------------------------- drawing without replacement

  const TWO64: nat := 0x1_0000_0000_0000_0000

  function NextState(state: nat): nat {
    (state + 0x9E37_79B9_7F4A_7C15) % TWO64
  }

  /** SplitMix64 on 64-bit words. */
  function Mix(state: nat): nat {
    var a := Xor(state, state / 0x4000_0000) * 0xBF58_476D_1CE4_E5B9 % TWO64;
    var b := Xor(a, a / 0x800_0000) * 0x94D0_49BB_1331_11EB % TWO64;
    Xor(b, b / 0x8000_0000)
  }

  function Without<T>(pool: seq<T>, i: nat): (r: seq<T>)
    requires i < |pool|
    ensures |r| == |pool| - 1
  {
    pool[..i] + pool[i + 1..]
  }

  function Sampled(pool: seq<Name>, count: nat, state: nat): (r: seq<Name>)
    ensures |r| == if count < |pool| then count else |pool|
    decreases |pool|
  {
    if count == 0 || pool == [] then []
    else
      var next := NextState(state);
      var i := Mix(next) % |pool|;
      [pool[i]] + Sampled(Without(pool, i), count - 1, next)
  }

  /** The first `count` steps of a shuffle. */
  method Sample(names: seq<Name>, count: nat, seed: nat) returns (picked: seq<Name>)
    ensures picked == Sampled(names, count, seed)
  {
    var pool, state := names, seed;
    picked := [];
    while |picked| < count && pool != []
      invariant |picked| <= count
      invariant Sampled(names, count, seed) == picked + Sampled(pool, count - |picked|, state)
      decreases |pool|
    {
      state := NextState(state);
      var i := Mix(state) % |pool|;
      assert picked + ([pool[i]] + Sampled(Without(pool, i), count - |picked| - 1, state))
          == picked + [pool[i]] + Sampled(Without(pool, i), count - |picked| - 1, state);
      picked := picked + [pool[i]];
      pool := Without(pool, i);
    }
    assert picked + [] == picked;
  }

  lemma {:induction false} WithoutMultiset<T>(pool: seq<T>, i: nat)
    requires i < |pool|
    ensures multiset(pool) == multiset(Without(pool, i)) + multiset{pool[i]}
  {
    assert pool == pool[..i] + [pool[i]] + pool[i + 1..];
  }

  /** A draw takes each entry of the pool at most once, whatever the seed. */
  lemma {:induction false} SampledFromPool(pool: seq<Name>, count: nat, state: nat)
    ensures multiset(Sampled(pool, count, state)) <= multiset(pool)
    decreases |pool|
  {
    if count > 0 && pool != [] {
      var next := NextState(state);
      var i := Mix(next) % |pool|;
      SampledFromPool(Without(pool, i), count - 1, next);
      OneMoreDrawn(pool, i, Sampled(Without(pool, i), count - 1, next));
    }
  }

  lemma {:induction false} OneMoreDrawn<T>(pool: seq<T>, i: nat, rest: seq<T>)
    requires i < |pool| && multiset(rest) <= multiset(Without(pool, i))
    ensures multiset([pool[i]] + rest) <= multiset(pool)
  {
    WithoutMultiset(pool, i);
    assert multiset([pool[i]] + rest) == multiset{pool[i]} + multiset(rest);
  }

  predicate Distinct<T(==)>(s: seq<T>) {
    forall i, j :: 0 <= i < j < |s| ==> s[i] != s[j]
  }

  lemma {:induction false} WithoutDistinct<T>(pool: seq<T>, i: nat)
    requires i < |pool| && Distinct(pool)
    ensures var rest := Without(pool, i); Distinct(rest) && pool[i] !in rest && forall x <- rest :: x in pool
  {
    var rest := Without(pool, i);
    assert forall k :: 0 <= k < |rest| ==> rest[k] == pool[if k < i then k else k + 1];
  }

  lemma {:induction false} ConsDistinct<T>(x: T, s: seq<T>)
    requires Distinct(s) && x !in s
    ensures Distinct([x] + s)
  {
  }

  /** Drawn from distinct names, the sample is distinct names of the pool. */
  lemma {:induction false} SampledDistinct(pool: seq<Name>, count: nat, state: nat)
    requires Distinct(pool)
    ensures Distinct(Sampled(pool, count, state))
    ensures forall x <- Sampled(pool, count, state) :: x in pool
    decreases |pool|
  {
    if count > 0 && pool != [] {
      var next := NextState(state);
      var i := Mix(next) % |pool|;
      WithoutDistinct(pool, i);
      SampledDistinct(Without(pool, i), count - 1, next);
      ConsDistinct(pool[i], Sampled(Without(pool, i), count - 1, next));
    }
  }

  // ---------------------------------------------------------------- votes

  function Middle(values: seq<int>): int
    requires values != []
  {
    Sort(values)[|values| / 2]
  }

  function Max(values: seq<int>): (m: int)
    requires values != []
    ensures m in values && forall v <- values :: v <= m
  {
    if |values| == 1 then values[0]
    else
      var m := Max(values[1..]);
      assert forall v <- values :: v == values[0] || v in values[1..];
      if values[0] > m then values[0] else m
  }

  function Min(values: seq<int>): (m: int)
    requires values != []
    ensures m in values && forall v <- values :: m <= v
  {
    if |values| == 1 then values[0]
    else
      var m := Min(values[1..]);
      assert forall v <- values :: v == values[0] || v in values[1..];
      if values[0] < m then values[0] else m
  }

  /** The readings of one operator, in the order they came. */
  function Readings(answers: seq<Answer>, operator: Name): seq<int> {
    if answers == [] then []
    else Reading(answers[0], operator) + Readings(answers[1..], operator)
  }

  function Reading(answer: Answer, operator: Name): seq<int> {
    if answer.operator == operator then [answer.seconds] else []
  }

  function SilentOf(sampled: seq<Name>, answers: seq<Answer>): seq<Name> {
    if sampled == [] then []
    else (if Readings(answers, sampled[0]) == [] then [sampled[0]] else []) + SilentOf(sampled[1..], answers)
  }

  predicate Spread(values: seq<int>, tolerance: int)
    requires values != []
  {
    Max(values) - Min(values) > tolerance
  }

  /** One vote for each sampled operator, or the first that disagrees with itself. */
  function Votes(sampled: seq<Name>, answers: seq<Answer>, tolerance: int): Result<seq<int>, QuorumError>
    requires forall p <- sampled :: Readings(answers, p) != []
  {
    if sampled == [] then Ok([])
    else
      var own := Readings(answers, sampled[0]);
      if Spread(own, tolerance) then Err(DisagreesWithItself(sampled[0]))
      else
        match Votes(sampled[1..], answers, tolerance)
        case Err(e) => Err(e)
        case Ok(rest) => Ok([Middle(own)] + rest)
  }

  lemma {:induction false} NobodySilent(sampled: seq<Name>, answers: seq<Answer>)
    ensures SilentOf(sampled, answers) == [] <==> forall p <- sampled :: Readings(answers, p) != []
  {
    if sampled == [] {
    } else {
      NobodySilent(sampled[1..], answers);
      assert sampled[0] in sampled;
      assert forall p <- sampled :: p == sampled[0] || p in sampled[1..];
      assert forall p <- sampled[1..] :: p in sampled;
    }
  }

  lemma {:induction false} VotesLength(sampled: seq<Name>, answers: seq<Answer>, tolerance: int)
    requires forall p <- sampled :: Readings(answers, p) != []
    ensures Votes(sampled, answers, tolerance).Ok? ==> |Votes(sampled, answers, tolerance).value| == |sampled|
  {
    if sampled != [] { VotesLength(sampled[1..], answers, tolerance); }
  }

  /** The verdict on a set of answers, with the first reason against believing any. */
  function Decided(sampled: seq<Name>, answers: seq<Answer>, tolerance: int): Result<int, QuorumError> {
    if sampled == [] then Err(NoneSampled)
    else if SilentOf(sampled, answers) != [] then Err(Silent(SilentOf(sampled, answers)))
    else
      NobodySilent(sampled, answers);
      VotesLength(sampled, answers, tolerance);
      match Votes(sampled, answers, tolerance)
      case Err(e) => Err(e)
      case Ok(votes) => if Spread(votes, tolerance) then Err(Disagree) else Ok(Middle(votes))
  }

  method Decide(sampled: seq<Name>, answers: seq<Answer>, tolerance: int) returns (r: Result<int, QuorumError>)
    ensures r == Decided(sampled, answers, tolerance)
  {
    if sampled == [] { return Err(NoneSampled); }
    var silent := SilentOf(sampled, answers);
    if silent != [] { return Err(Silent(silent)); }
    NobodySilent(sampled, answers);
    VotesLength(sampled, answers, tolerance);
    var votes: seq<int> := [];
    var i := 0;
    assert sampled[0..] == sampled;
    OnTopNothing(Votes(sampled, answers, tolerance));
    while i < |sampled|
      invariant 0 <= i <= |sampled| && |votes| == i
      invariant Votes(sampled, answers, tolerance) == OnTop(votes, Votes(sampled[i..], answers, tolerance))
    {
      var provider := sampled[i];
      assert sampled[i..][0] == provider && sampled[i..][1..] == sampled[i + 1..];
      var own := Readings(answers, provider);
      if Spread(own, tolerance) { return Err(DisagreesWithItself(provider)); }
      OnTopTwice(votes, Middle(own), Votes(sampled[i + 1..], answers, tolerance));
      votes := votes + [Middle(own)];
      i := i + 1;
    }
    assert votes + [] == votes;
    if Spread(votes, tolerance) { return Err(Disagree); }
    return Ok(Middle(votes));
  }

  function OnTop(votes: seq<int>, rest: Result<seq<int>, QuorumError>): Result<seq<int>, QuorumError> {
    if rest.Ok? then Ok(votes + rest.value) else rest
  }

  lemma {:induction false} OnTopNothing(rest: Result<seq<int>, QuorumError>)
    ensures OnTop([], rest) == rest
  {
    if rest.Ok? { assert [] + rest.value == rest.value; }
  }

  lemma {:induction false} OnTopTwice(votes: seq<int>, v: int, rest: Result<seq<int>, QuorumError>)
    ensures OnTop(votes, OnTop([v], rest)) == OnTop(votes + [v], rest)
  {
    if rest.Ok? { assert votes + ([v] + rest.value) == votes + [v] + rest.value; }
  }

  // ---------------------------------------------------------------- what a decision means

  lemma {:induction false} MiddleIsOneOf(values: seq<int>)
    requires values != []
    ensures Middle(values) in values
  {
    SortIsSorted(values);
    assert Middle(values) in multiset(Sort(values));
  }

  lemma {:induction false} VotesAt(sampled: seq<Name>, answers: seq<Answer>, tolerance: int, k: nat)
    requires forall p <- sampled :: Readings(answers, p) != []
    requires Votes(sampled, answers, tolerance).Ok? && k < |sampled|
    ensures |Votes(sampled, answers, tolerance).value| == |sampled|
    ensures var own := Readings(answers, sampled[k]);
            Votes(sampled, answers, tolerance).value[k] == Middle(own) && !Spread(own, tolerance)
  {
    VotesLength(sampled, answers, tolerance);
    if k > 0 { VotesAt(sampled[1..], answers, tolerance, k - 1); }
  }

  lemma {:induction false} ReadingsAreAnswers(answers: seq<Answer>, operator: Name, s: int)
    ensures s in Readings(answers, operator) <==> exists a <- answers :: a.operator == operator && a.seconds == s
  {
    if answers != [] {
      ReadingsAreAnswers(answers[1..], operator, s);
      assert forall a :: a in answers <==> a == answers[0] || a in answers[1..];
    }
  }

  /** Within tolerance of each other. */
  predicate Near(a: int, b: int, tolerance: int) {
    -tolerance <= a - b <= tolerance
  }

  lemma {:induction false} NoSpreadMeansNear(values: seq<int>, tolerance: int, a: int, b: int)
    requires values != [] && !Spread(values, tolerance) && a in values && b in values
    ensures Near(a, b, tolerance)
  {
  }

  /** If a time is believed, every sampled operator answered; each agrees with itself; the time is one
      of the readings, within tolerance of every vote, and within twice the tolerance of every reading
      of a sampled operator. */
  lemma {:induction false} BelievedMeansAgreed(sampled: seq<Name>, answers: seq<Answer>, tolerance: int, p: Name, s: int)
    requires Decided(sampled, answers, tolerance).Ok? && p in sampled
    ensures Readings(answers, p) != []
    ensures var t := Decided(sampled, answers, tolerance).value;
            && (exists a <- answers :: a.operator in sampled && a.seconds == t)
            && Near(t, Middle(Readings(answers, p)), tolerance)
            && (s in Readings(answers, p) ==> Near(t, s, 2 * tolerance))
  {
    NobodySilent(sampled, answers);
    var t := Decided(sampled, answers, tolerance).value;
    var votes := Votes(sampled, answers, tolerance).value;
    var k :| 0 <= k < |sampled| && sampled[k] == p;
    VotesAt(sampled, answers, tolerance, k);
    MiddleIsOneOf(votes);
    NoSpreadMeansNear(votes, tolerance, t, votes[k]);
    MiddleIsOneOf(Readings(answers, p));
    if s in Readings(answers, p) { NoSpreadMeansNear(Readings(answers, p), tolerance, votes[k], s); }
    var j :| 0 <= j < |votes| && votes[j] == t;
    VotesAt(sampled, answers, tolerance, j);
    MiddleIsOneOf(Readings(answers, sampled[j]));
    ReadingsAreAnswers(answers, sampled[j], t);
  }

  predicate AllNear(values: seq<int>, tolerance: int) {
    forall a <- values, b <- values :: Near(a, b, tolerance)
  }

  lemma {:induction false} SpreadIff(values: seq<int>, tolerance: int)
    requires values != []
    ensures Spread(values, tolerance) <==> !AllNear(values, tolerance)
  {
    var high, low := Max(values), Min(values);
    if Spread(values, tolerance) {
      assert high in values && low in values && !Near(high, low, tolerance);
    }
  }

  lemma {:induction false} VotesIff(sampled: seq<Name>, answers: seq<Answer>, tolerance: int)
    requires forall p <- sampled :: Readings(answers, p) != []
    ensures Votes(sampled, answers, tolerance).Ok?
        <==> forall p <- sampled :: AllNear(Readings(answers, p), tolerance)
  {
    if sampled != [] {
      SpreadIff(Readings(answers, sampled[0]), tolerance);
      VotesIff(sampled[1..], answers, tolerance);
      assert forall p <- sampled :: p == sampled[0] || p in sampled[1..];
      assert forall p <- sampled[1..] :: p in sampled;
    }
  }

  ghost predicate EachAgrees(sampled: seq<Name>, answers: seq<Answer>, tolerance: int) {
    forall p <- sampled :: Readings(answers, p) != [] && AllNear(Readings(answers, p), tolerance)
  }

  ghost predicate VotesAgree(sampled: seq<Name>, answers: seq<Answer>, tolerance: int)
    requires forall p <- sampled :: Readings(answers, p) != []
  {
    forall p <- sampled, q <- sampled ::
      Near(Middle(Readings(answers, p)), Middle(Readings(answers, q)), tolerance)
  }

  /** A time is believed exactly when something was sampled, every sampled operator answered and agrees
      with itself, and every two of them agree with each other. */
  lemma {:induction false} BelievedIff(sampled: seq<Name>, answers: seq<Answer>, tolerance: int)
    ensures Decided(sampled, answers, tolerance).Ok?
        <==> sampled != [] && EachAgrees(sampled, answers, tolerance) && VotesAgree(sampled, answers, tolerance)
  {
    NobodySilent(sampled, answers);
    if sampled != [] && SilentOf(sampled, answers) == [] {
      VotesIff(sampled, answers, tolerance);
      if Votes(sampled, answers, tolerance).Ok? { VotesAgreeIff(sampled, answers, tolerance); }
    }
  }

  lemma {:induction false} VotesAgreeIff(sampled: seq<Name>, answers: seq<Answer>, tolerance: int)
    requires sampled != [] && (forall p <- sampled :: Readings(answers, p) != [])
    requires Votes(sampled, answers, tolerance).Ok?
    ensures Votes(sampled, answers, tolerance).value != []
    ensures Spread(Votes(sampled, answers, tolerance).value, tolerance) <==> !VotesAgree(sampled, answers, tolerance)
  {
    var votes := Votes(sampled, answers, tolerance).value;
    VotesLength(sampled, answers, tolerance);
    SpreadIff(votes, tolerance);
    forall k | 0 <= k < |sampled| ensures votes[k] == Middle(Readings(answers, sampled[k])) {
      VotesAt(sampled, answers, tolerance, k);
    }
    if VotesAgree(sampled, answers, tolerance) {
      forall a <- votes, b <- votes ensures Near(a, b, tolerance) {
        var i :| 0 <= i < |votes| && votes[i] == a;
        var j :| 0 <= j < |votes| && votes[j] == b;
        assert sampled[i] in sampled && sampled[j] in sampled;
      }
    }
    if AllNear(votes, tolerance) {
      forall p <- sampled, q <- sampled
        ensures Near(Middle(Readings(answers, p)), Middle(Readings(answers, q)), tolerance) {
        var i :| 0 <= i < |sampled| && sampled[i] == p;
        var j :| 0 <= j < |sampled| && sampled[j] == q;
        assert votes[i] in votes && votes[j] in votes;
      }
    }
  }

  // ---------------------------------------------------------------- how many may lie

  function Falses(flags: seq<bool>): nat {
    if flags == [] then 0 else (if flags[0] then 0 else 1) + Falses(flags[1..])
  }

  lemma {:induction false} OnlyLiarsAbove(values: seq<int>, honest: seq<bool>, m: int)
    requires |values| == |honest|
    ensures (forall k :: 0 <= k < |values| && honest[k] ==> values[k] < m) ==> CountGe(values, m) <= Falses(honest)
    ensures (forall k :: 0 <= k < |values| && honest[k] ==> values[k] > m) ==> CountLe(values, m) <= Falses(honest)
  {
    if values != [] {
      OnlyLiarsAbove(values[1..], honest[1..], m);
      assert forall k :: 0 <= k < |values| - 1 ==> values[1..][k] == values[k + 1] && honest[1..][k] == honest[k + 1];
    }
  }

  /** With fewer than half of the votes arbitrary, rounding up, the middle lies between two honest votes. */
  lemma {:induction false} MiddleIsBracketed(values: seq<int>, honest: seq<bool>)
    requires values != [] && |values| == |honest| && Falses(honest) < (|values| + 1) / 2
    ensures exists i :: 0 <= i < |values| && honest[i] && values[i] <= Middle(values)
    ensures exists j :: 0 <= j < |values| && honest[j] && Middle(values) <= values[j]
  {
    var m, k := Middle(values), |values| / 2;
    SortIsSorted(values);
    SortedCounts(Sort(values), k, m);
    SortCounts(values, m);
    OnlyLiarsAbove(values, honest, m);
  }

  /** And no more can be allowed: with half of them arbitrary the middle can exceed every honest vote. */
  lemma {:induction false} HalfIsTooMany(n: nat, truth: int) returns (values: seq<int>, honest: seq<bool>)
    requires n > 0
    ensures |values| == |honest| == n && Falses(honest) == (n + 1) / 2
    ensures forall k :: 0 <= k < n && honest[k] ==> values[k] == truth
    ensures Middle(values) > truth
  {
    var liars := (n + 1) / 2;
    values := seq(n - liars, _ => truth) + seq(liars, _ => truth + 1);
    honest := seq(n - liars, _ => true) + seq(liars, _ => false);
    TrailingFalses(n - liars, liars);
    SortedIsItself(values);
  }

  lemma {:induction false} SortedIsItself(values: seq<int>)
    requires Sorted(values)
    ensures Sort(values) == values
  {
    SortIsSorted(values);
    SortedIsUnique(Sort(values), values);
  }

  lemma {:induction false} TrailingFalses(h: nat, f: nat)
    ensures Falses(seq(h, _ => true) + seq(f, _ => false)) == f
    decreases h + f
  {
    var flags := seq(h, _ => true) + seq(f, _ => false);
    if h > 0 {
      assert flags[1..] == seq(h - 1, _ => true) + seq(f, _ => false);
      TrailingFalses(h - 1, f);
    } else if f > 0 {
      assert flags[1..] == seq(0, _ => true) + seq(f - 1, _ => false);
      TrailingFalses(0, f - 1);
    }
  }

  /** So the believed time is bracketed by honest operators' votes. */
  lemma {:induction false} HonestMajorityBrackets(sampled: seq<Name>, answers: seq<Answer>, tolerance: int, honest: seq<bool>)
    requires Decided(sampled, answers, tolerance).Ok? && |honest| == |sampled|
    requires Falses(honest) < (|sampled| + 1) / 2
    ensures var t := Decided(sampled, answers, tolerance).value;
            exists i, j :: 0 <= i < |sampled| && 0 <= j < |sampled| && honest[i] && honest[j]
              && Readings(answers, sampled[i]) != [] && Readings(answers, sampled[j]) != []
              && Middle(Readings(answers, sampled[i])) <= t <= Middle(Readings(answers, sampled[j]))
  {
    NobodySilent(sampled, answers);
    VotesLength(sampled, answers, tolerance);
    var votes := Votes(sampled, answers, tolerance).value;
    MiddleIsBracketed(votes, honest);
    var i :| 0 <= i < |votes| && honest[i] && votes[i] <= Middle(votes);
    var j :| 0 <= j < |votes| && honest[j] && Middle(votes) <= votes[j];
    VotesAt(sampled, answers, tolerance, i);
    VotesAt(sampled, answers, tolerance, j);
    assert sampled[i] in sampled && sampled[j] in sampled;
  }

  // ---------------------------------------------------------------- the order answers come in

  lemma {:induction false} ReadingsIgnoreOrder(a: seq<Answer>, b: seq<Answer>, p: Name)
    requires multiset(a) == multiset(b)
    ensures multiset(Readings(a, p)) == multiset(Readings(b, p))
    decreases |a|
  {
    SameLength(a, b);
    if a != [] {
      assert a[0] in multiset(b);
      var k :| 0 <= k < |b| && b[k] == a[0];
      SameRest(a, b, k);
      ReadingsIgnoreOrder(Without(a, 0), Without(b, k), p);
      ReadingsWithout(a, 0, p);
      ReadingsWithout(b, k, p);
    }
  }

  lemma {:induction false} SameRest(a: seq<Answer>, b: seq<Answer>, k: nat)
    requires multiset(a) == multiset(b) && a != [] && k < |b| && b[k] == a[0]
    ensures multiset(Without(a, 0)) == multiset(Without(b, k))
  {
    WithoutMultiset(a, 0);
    WithoutMultiset(b, k);
    assert multiset(Without(a, 0)) == multiset(a) - multiset{a[0]};
    assert multiset(Without(b, k)) == multiset(b) - multiset{b[k]};
  }

  lemma {:induction false} ReadingsWithout(b: seq<Answer>, k: nat, p: Name)
    requires k < |b|
    ensures multiset(Readings(b, p)) == multiset(Readings(Without(b, k), p)) + multiset(Reading(b[k], p))
  {
    var rest := Without(b, k);
    if k == 0 {
      assert rest == b[1..];
    } else {
      assert rest[0] == b[0] && rest[1..] == Without(b[1..], k - 1);
      ReadingsWithout(b[1..], k - 1, p);
    }
  }

  lemma {:induction false} SameMembers(a: seq<int>, b: seq<int>, x: int)
    requires multiset(a) == multiset(b) && x in a
    ensures x in b
  {
    assert x in multiset(a);
  }

  lemma {:induction false} SpreadIgnoresOrder(a: seq<int>, b: seq<int>, tolerance: int)
    requires a != [] && b != [] && multiset(a) == multiset(b)
    ensures Spread(a, tolerance) == Spread(b, tolerance) && Middle(a) == Middle(b)
  {
    SameMembers(a, b, Max(a));
    SameMembers(a, b, Min(a));
    SameMembers(b, a, Max(b));
    SameMembers(b, a, Min(b));
    SortIgnoresOrder(a, b);
    SameLength(a, b);
  }

  lemma {:induction false} VotesIgnoreOrder(sampled: seq<Name>, a: seq<Answer>, b: seq<Answer>, tolerance: int)
    requires multiset(a) == multiset(b)
    requires (forall p <- sampled :: Readings(a, p) != []) && (forall p <- sampled :: Readings(b, p) != [])
    ensures Votes(sampled, a, tolerance) == Votes(sampled, b, tolerance)
  {
    if sampled != [] {
      ReadingsIgnoreOrder(a, b, sampled[0]);
      SpreadIgnoresOrder(Readings(a, sampled[0]), Readings(b, sampled[0]), tolerance);
      VotesIgnoreOrder(sampled[1..], a, b, tolerance);
    }
  }

  lemma {:induction false} SilenceIgnoresOrder(sampled: seq<Name>, a: seq<Answer>, b: seq<Answer>)
    requires multiset(a) == multiset(b)
    ensures SilentOf(sampled, a) == SilentOf(sampled, b)
  {
    if sampled != [] {
      ReadingsIgnoreOrder(a, b, sampled[0]);
      SameLength(Readings(a, sampled[0]), Readings(b, sampled[0]));
      SilenceIgnoresOrder(sampled[1..], a, b);
    }
  }

  /** The outcome, success or failure, does not depend on the order the answers came in. */
  lemma {:induction false} DecisionIgnoresOrder(sampled: seq<Name>, a: seq<Answer>, b: seq<Answer>, tolerance: int)
    requires multiset(a) == multiset(b)
    ensures Decided(sampled, a, tolerance) == Decided(sampled, b, tolerance)
  {
    SilenceIgnoresOrder(sampled, a, b);
    NobodySilent(sampled, a);
    NobodySilent(sampled, b);
    if SilentOf(sampled, a) == [] { VotesIgnoreOrder(sampled, a, b, tolerance); }
  }
}
