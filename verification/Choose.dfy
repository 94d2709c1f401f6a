/** What the command line may ask for, and which (resolver, server) pairs it turns into. */
module Choose {
  import opened Bytes
  import opened Quorum
  import opened Wire

  datatype Resolver = Resolver(name: Name, hostname: Name, addresses: seq<Address>)

  datatype TimeServer = TimeServer(name: Name, hostname: Name, operator: Name)

  datatype Pair = Pair(resolver: Resolver, server: TimeServer)

  datatype Options = Options(
    resolvers: seq<Resolver>, servers: seq<TimeServer>, sample: nat, tolerance: int, floor: int,
    only: Option<seq<Name>>, force: bool, dryRun: bool)

  datatype Refusal =
    | NoResolver | NoServer | SampleOfNone | TooFewOperators | TooFewResolvers
    | OnlyNobody | OnlyUnknown(name: Name) | OnlySharesOperators | OnlyTooFewResolvers

  // ---------------------------------------------------------------- operators

  function DistinctOf(servers: seq<TimeServer>): seq<Name> {
    if servers == [] then []
    else
      var operators, last := DistinctOf(servers[..|servers| - 1]), servers[|servers| - 1].operator;
      if last in operators then operators else operators + [last]
  }

  method DistinctOperators(servers: seq<TimeServer>) returns (operators: seq<Name>)
    ensures operators == DistinctOf(servers)
  {
    operators := [];
    for i := 0 to |servers|
      invariant operators == DistinctOf(servers[..i])
    {
      assert servers[..i + 1][..i] == servers[..i];
      if servers[i].operator !in operators { operators := operators + [servers[i].operator]; }
    }
    assert servers[..|servers|] == servers;
  }

  ghost predicate HasOperator(servers: seq<TimeServer>, operator: Name) {
    exists s <- servers :: s.operator == operator
  }

  /** Each operator is listed once, and only operators of configured servers are. */
  lemma {:induction false} DistinctOfIsExact(servers: seq<TimeServer>)
    ensures Distinct(DistinctOf(servers))
    ensures forall p :: p in DistinctOf(servers) <==> HasOperator(servers, p)
  {
    if servers != [] {
      var front, last := servers[..|servers| - 1], servers[|servers| - 1];
      DistinctOfIsExact(front);
      assert servers == front + [last];
      assert forall p :: HasOperator(servers, p) <==> HasOperator(front, p) || p == last.operator;
    }
  }

  predicate OneEach(servers: seq<TimeServer>) {
    forall i, j :: 0 <= i < j < |servers| ==> servers[i].operator != servers[j].operator
  }

  /** Counting operators tells whether two servers share one. */
  lemma {:induction false} CountTellsSharing(servers: seq<TimeServer>)
    ensures |DistinctOf(servers)| <= |servers|
    ensures |DistinctOf(servers)| == |servers| <==> OneEach(servers)
  {
    if servers != [] {
      var front, last := servers[..|servers| - 1], servers[|servers| - 1];
      CountTellsSharing(front);
      DistinctOfIsExact(front);
      SharingWithLast(servers);
    }
  }

  lemma {:induction false} SharingWithLast(servers: seq<TimeServer>)
    requires servers != []
    ensures var front, last := servers[..|servers| - 1], servers[|servers| - 1].operator;
            OneEach(servers) <==> OneEach(front) && !HasOperator(front, last)
  {
    var front, last := servers[..|servers| - 1], servers[|servers| - 1].operator;
    if HasOperator(front, last) {
      var k :| 0 <= k < |front| && front[k].operator == last;
      assert servers[k].operator == last;
    }
    if OneEach(servers) {
      assert forall i :: 0 <= i < |front| ==> front[i] == servers[i];
    }
    if OneEach(front) && !HasOperator(front, last) {
      assert forall i :: 0 <= i < |front| ==> front[i] == servers[i] && front[i] in front;
    }
  }

  // ---------------------------------------------------------------- what the command line may ask for

  function Named(servers: seq<TimeServer>, only: seq<Name>): seq<TimeServer> {
    if servers == [] then []
    else if servers[0].name in only then [servers[0]] + Named(servers[1..], only)
    else Named(servers[1..], only)
  }

  predicate Configured(servers: seq<TimeServer>, name: Name) {
    exists s <- servers :: s.name == name
  }

  function FirstUnknown(servers: seq<TimeServer>, only: seq<Name>): Option<Name> {
    if only == [] then None
    else if Configured(servers, only[0]) then FirstUnknown(servers, only[1..])
    else Some(only[0])
  }

  function OnlyRefused(o: Options, only: seq<Name>): Option<Refusal> {
    if only == [] then Some(OnlyNobody)
    else if FirstUnknown(o.servers, only).Some? then Some(OnlyUnknown(FirstUnknown(o.servers, only).value))
    else if |DistinctOf(Named(o.servers, only))| < |only| then Some(OnlySharesOperators)
    else if |only| > |o.resolvers| then Some(OnlyTooFewResolvers)
    else None
  }

  /** The arity rules, in the order they are reported. */
  function Refused(o: Options): Option<Refusal> {
    if o.resolvers == [] then Some(NoResolver)
    else if o.servers == [] then Some(NoServer)
    else if o.sample == 0 then Some(SampleOfNone)
    else if o.sample > |DistinctOf(o.servers)| then Some(TooFewOperators)
    else if o.sample > |o.resolvers| then Some(TooFewResolvers)
    else if o.only.Some? then OnlyRefused(o, o.only.value)
    else None
  }

  method CheckOnly(o: Options, only: seq<Name>) returns (r: Option<Refusal>)
    ensures r == OnlyRefused(o, only)
  {
    if only == [] { return Some(OnlyNobody); }
    for i := 0 to |only|
      invariant FirstUnknown(o.servers, only) == FirstUnknown(o.servers, only[i..])
    {
      assert only[i..][0] == only[i] && only[i..][1..] == only[i + 1..];
      if !Configured(o.servers, only[i]) { return Some(OnlyUnknown(only[i])); }
    }
    var operators := DistinctOperators(Named(o.servers, only));
    if |operators| < |only| { return Some(OnlySharesOperators); }
    if |only| > |o.resolvers| { return Some(OnlyTooFewResolvers); }
    return None;
  }

  method CheckArity(o: Options) returns (r: Option<Refusal>)
    ensures r == Refused(o)
  {
    if o.resolvers == [] { return Some(NoResolver); }
    if o.servers == [] { return Some(NoServer); }
    if o.sample == 0 { return Some(SampleOfNone); }
    var operators := DistinctOperators(o.servers);
    if o.sample > |operators| { return Some(TooFewOperators); }
    if o.sample > |o.resolvers| { return Some(TooFewResolvers); }
    if o.only.Some? { r := CheckOnly(o, o.only.value); } else { r := None; }
  }

  predicate Accepted(o: Options) {
    Refused(o).None?
  }

  // ---------------------------------------------------------------- the pairs

  function Theirs(servers: seq<TimeServer>, operator: Name): seq<TimeServer> {
    if servers == [] then []
    else if servers[0].operator == operator then [servers[0]] + Theirs(servers[1..], operator)
    else Theirs(servers[1..], operator)
  }

  function Names(servers: seq<TimeServer>): (r: seq<Name>)
    ensures |r| == |servers| && forall i :: 0 <= i < |r| ==> r[i] == servers[i].name
  {
    seq(|servers|, i requires 0 <= i < |servers| => servers[i].name)
  }

  function ResolverNames(resolvers: seq<Resolver>): (r: seq<Name>)
    ensures |r| == |resolvers| && forall i :: 0 <= i < |r| ==> r[i] == resolvers[i].name
  {
    seq(|resolvers|, i requires 0 <= i < |resolvers| => resolvers[i].name)
  }

  function FindServer(servers: seq<TimeServer>, name: Name): (r: Option<TimeServer>)
    ensures r.Some? ==> r.value in servers && r.value.name == name
    ensures r.None? ==> forall s <- servers :: s.name != name
  {
    if servers == [] then None
    else if servers[0].name == name then Some(servers[0])
    else FindServer(servers[1..], name)
  }

  function FindResolver(resolvers: seq<Resolver>, name: Name): (r: Option<Resolver>)
    ensures r.Some? ==> r.value in resolvers && r.value.name == name
    ensures r.None? ==> forall s <- resolvers :: s.name != name
  {
    if resolvers == [] then None
    else if resolvers[0].name == name then Some(resolvers[0])
    else FindResolver(resolvers[1..], name)
  }

  function DrawnOne(servers: seq<TimeServer>, operator: Name, seed: nat): Option<TimeServer> {
    var theirs := Theirs(servers, operator);
    var picked := Sampled(Names(theirs), 1, seed);
    if picked == [] then None else FindServer(theirs, picked[0])
  }

  function Prepended(first: Option<TimeServer>, rest: seq<TimeServer>): seq<TimeServer> {
    if first.Some? then [first.value] + rest else rest
  }

  /** One server for each drawn operator, with a seed of its own for each position. */
  function Drawn(servers: seq<TimeServer>, operators: seq<Name>, seed: nat, index: nat): seq<TimeServer> {
    if operators == [] then []
    else
      Prepended(DrawnOne(servers, operators[0], (seed + index + 2) % TWO64),
                Drawn(servers, operators[1..], seed, index + 1))
  }

  function Chosen(o: Options, seed: nat): seq<TimeServer> {
    if o.only.Some? then Named(o.servers, o.only.value)
    else Drawn(o.servers, Sampled(DistinctOf(o.servers), o.sample, seed), seed, 0)
  }

  function Zip(servers: seq<TimeServer>, names: seq<Name>, resolvers: seq<Resolver>): (r: seq<Pair>)
    requires |servers| == |names| && forall n <- names :: FindResolver(resolvers, n).Some?
    ensures |r| == |servers|
  {
    seq(|servers|, i requires 0 <= i < |servers| => Pair(FindResolver(resolvers, names[i]).value, servers[i]))
  }

  function DrawnResolvers(o: Options, seed: nat): seq<Name> {
    Sampled(ResolverNames(o.resolvers), |Chosen(o, seed)|, (seed + 1) % TWO64)
  }

  /** `None` when there are not enough resolvers to give each server its own. */
  function Pairs(o: Options, seed: nat): Option<seq<Pair>> {
    var resolvers := DrawnResolvers(o, seed);
    if |resolvers| < |Chosen(o, seed)| then None
    else
      DrawnAreConfigured(o, seed);
      Some(Zip(Chosen(o, seed), resolvers, o.resolvers))
  }

  lemma {:induction false} InPool(pool: seq<Name>, count: nat, seed: nat, n: Name)
    requires n in Sampled(pool, count, seed)
    ensures n in pool
  {
    SampledFromPool(pool, count, seed);
    assert n in multiset(Sampled(pool, count, seed));
    assert n in multiset(pool);
  }

  /** A drawn resolver name is always found again. */
  lemma {:induction false} DrawnAreConfigured(o: Options, seed: nat)
    ensures forall n <- DrawnResolvers(o, seed) :: FindResolver(o.resolvers, n).Some?
  {
    var pool := ResolverNames(o.resolvers);
    forall n <- DrawnResolvers(o, seed) ensures FindResolver(o.resolvers, n).Some? {
      InPool(pool, |Chosen(o, seed)|, (seed + 1) % TWO64, n);
      var k :| 0 <= k < |pool| && pool[k] == n;
      assert o.resolvers[k] in o.resolvers;
    }
  }

  // ---------------------------------------------------------------- what is asked

  lemma {:induction false} TheirsAreTheirs(servers: seq<TimeServer>, operator: Name)
    ensures forall s :: s in Theirs(servers, operator) <==> s in servers && s.operator == operator
  {
    if servers != [] {
      TheirsAreTheirs(servers[1..], operator);
      assert forall s :: s in servers <==> s == servers[0] || s in servers[1..];
    }
  }

  lemma {:induction false} NamedAreNamed(servers: seq<TimeServer>, only: seq<Name>)
    ensures forall s :: s in Named(servers, only) <==> s in servers && s.name in only
  {
    if servers != [] {
      NamedAreNamed(servers[1..], only);
      assert forall s :: s in servers <==> s == servers[0] || s in servers[1..];
    }
  }

  lemma {:induction false} DrawnOneIsTheirs(servers: seq<TimeServer>, operator: Name, seed: nat)
    requires HasOperator(servers, operator)
    ensures var r := DrawnOne(servers, operator, seed); r.Some? && r.value in servers && r.value.operator == operator
  {
    var theirs := Theirs(servers, operator);
    TheirsAreTheirs(servers, operator);
    var picked := Sampled(Names(theirs), 1, seed);
    InPool(Names(theirs), 1, seed, picked[0]);
    var k :| 0 <= k < |theirs| && Names(theirs)[k] == picked[0];
    assert theirs[k] in theirs;
  }

  lemma {:induction false} DrawnMatches(servers: seq<TimeServer>, operators: seq<Name>, seed: nat, index: nat)
    requires forall p <- operators :: HasOperator(servers, p)
    ensures var r := Drawn(servers, operators, seed, index);
            |r| == |operators| && forall k :: 0 <= k < |r| ==> r[k] in servers && r[k].operator == operators[k]
  {
    if operators != [] {
      DrawnOneIsTheirs(servers, operators[0], (seed + index + 2) % TWO64);
      DrawnMatches(servers, operators[1..], seed, index + 1);
    }
  }

  /** Sampling asks exactly `sample` servers, each configured and each of a different operator, for every seed. */
  lemma {:induction false} SamplingAsksDistinctOperators(o: Options, seed: nat)
    requires Accepted(o) && o.only.None?
    ensures var r := Chosen(o, seed); |r| == o.sample && OneEach(r) && forall s <- r :: s in o.servers
  {
    var operators := Sampled(DistinctOf(o.servers), o.sample, seed);
    DistinctOfIsExact(o.servers);
    SampledDistinct(DistinctOf(o.servers), o.sample, seed);
    DrawnMatches(o.servers, operators, seed, 0);
  }

  predicate NamesDistinct(servers: seq<TimeServer>) {
    Distinct(Names(servers))
  }

  lemma {:induction false} NamesDistinctTail(servers: seq<TimeServer>)
    requires servers != [] && NamesDistinct(servers)
    ensures NamesDistinct(servers[1..]) && forall s <- servers[1..] :: s.name != servers[0].name
  {
    var all, tail := Names(servers), Names(servers[1..]);
    assert forall i :: 0 <= i < |tail| ==> tail[i] == all[i + 1];
    forall s <- servers[1..] ensures s.name != servers[0].name {
      var k :| 0 <= k < |servers[1..]| && servers[1..][k] == s;
      assert all[k + 1] == s.name;
    }
  }

  lemma {:induction false} NamedDistinct(servers: seq<TimeServer>, only: seq<Name>)
    requires NamesDistinct(servers)
    ensures NamesDistinct(Named(servers, only))
  {
    if servers != [] {
      NamesDistinctTail(servers);
      var rest := Named(servers[1..], only);
      NamedDistinct(servers[1..], only);
      NamedAreNamed(servers[1..], only);
      if servers[0].name in only { NamesDistinctCons(servers[0], rest); }
    }
  }

  lemma {:induction false} NamesDistinctCons(s: TimeServer, rest: seq<TimeServer>)
    requires NamesDistinct(rest) && forall t <- rest :: t.name != s.name
    ensures NamesDistinct([s] + rest)
  {
    var all := Names([s] + rest);
    forall i, j | 0 <= i < j < |all| ensures all[i] != all[j] {
      assert all[j] == rest[j - 1].name && rest[j - 1] in rest;
      if i > 0 { assert all[i] == Names(rest)[i - 1] && all[j] == Names(rest)[j - 1]; }
    }
  }

  /** Pairwise distinct names drawn from a list are no more than the list. */
  lemma {:induction false} Pigeonhole(names: seq<Name>, holes: seq<Name>)
    requires Distinct(names) && forall n <- names :: n in holes
    ensures |names| <= |holes|
    decreases |names|
  {
    if names != [] {
      assert names[0] in names;
      var k :| 0 <= k < |holes| && holes[k] == names[0];
      var rest := Without(holes, k);
      forall n <- names[1..] ensures n in rest {
        var i :| 0 <= i < |names| - 1 && names[1..][i] == n;
        assert names[i + 1] == n != names[0] && names[i + 1] in names;
        var j :| 0 <= j < |holes| && holes[j] == n;
        assert rest[if j < k then j else j - 1] == n;
      }
      Pigeonhole(names[1..], rest);
    }
  }

  /** With server names pairwise distinct, `--only` asks as many servers as it lists, one per operator. */
  lemma {:induction false} NamingAsksDistinctOperators(o: Options)
    requires Accepted(o) && o.only.Some? && NamesDistinct(o.servers)
    ensures var named := Named(o.servers, o.only.value); |named| == |o.only.value| && OneEach(named)
  {
    var only := o.only.value;
    var named := Named(o.servers, only);
    NamedAreNamed(o.servers, only);
    NamedDistinct(o.servers, only);
    forall n <- Names(named) ensures n in only {
      var k :| 0 <= k < |named| && Names(named)[k] == n;
      assert named[k] in named;
    }
    Pigeonhole(Names(named), only);
    CountTellsSharing(named);
  }

  predicate OwnResolvers(pairs: seq<Pair>) {
    forall i, j :: 0 <= i < j < |pairs| ==> pairs[i].resolver.name != pairs[j].resolver.name
  }

  predicate OwnOperators(pairs: seq<Pair>) {
    forall i, j :: 0 <= i < j < |pairs| ==> pairs[i].server.operator != pairs[j].server.operator
  }

  predicate FromOptions(pairs: seq<Pair>, o: Options) {
    forall p <- pairs :: p.resolver in o.resolvers && p.server in o.servers
  }

  lemma {:induction false} ChosenCount(o: Options, seed: nat)
    requires Accepted(o) && NamesDistinct(o.servers)
    ensures var r := Chosen(o, seed);
            |r| == (if o.only.Some? then |o.only.value| else o.sample) <= |o.resolvers| && OneEach(r)
            && forall s <- r :: s in o.servers
  {
    if o.only.Some? {
      NamingAsksDistinctOperators(o);
      NamedAreNamed(o.servers, o.only.value);
    } else {
      SamplingAsksDistinctOperators(o, seed);
    }
  }

  /** For every seed and every accepted command line whose names are pairwise distinct, choosing succeeds:
      as many pairs as were asked for, no operator twice and no resolver twice. */
  lemma {:induction false} ChoosingSucceeds(o: Options, seed: nat)
    requires Accepted(o) && NamesDistinct(o.servers) && Distinct(ResolverNames(o.resolvers))
    ensures Pairs(o, seed).Some?
    ensures var pairs := Pairs(o, seed).value;
            && |pairs| == (if o.only.Some? then |o.only.value| else o.sample)
            && OwnOperators(pairs) && OwnResolvers(pairs) && FromOptions(pairs, o)
  {
    ChosenCount(o, seed);
    DrawnAreConfigured(o, seed);
    SampledDistinct(ResolverNames(o.resolvers), |Chosen(o, seed)|, (seed + 1) % TWO64);
  }

  /** Resolvers with distinct names are each given to one pair, for every seed, whatever the servers. */
  lemma {:induction false} DistinctResolversAreOwn(o: Options, seed: nat)
    requires Pairs(o, seed).Some? && Distinct(ResolverNames(o.resolvers))
    ensures OwnResolvers(Pairs(o, seed).value)
  {
    DrawnAreConfigured(o, seed);
    SampledDistinct(ResolverNames(o.resolvers), |Chosen(o, seed)|, (seed + 1) % TWO64);
  }

  lemma {:induction false} DistinctBag(s: seq<Name>)
    requires Distinct(s)
    ensures forall x :: multiset(s)[x] <= 1
  {
    if s != [] {
      var front, last := s[..|s| - 1], s[|s| - 1];
      assert forall i, j :: 0 <= i < j < |front| ==> front[i] == s[i] && front[j] == s[j];
      DistinctBag(front);
      assert s == front + [last];
      assert last !in front by { assert forall i :: 0 <= i < |front| ==> front[i] == s[i]; }
    }
  }

  lemma {:induction false} TwiceInBag(s: seq<Name>, i: nat, j: nat)
    requires i < j < |s| && s[i] == s[j]
    ensures multiset(s)[s[i]] >= 2
  {
    assert s == s[..i] + [s[i]] + s[i + 1..j] + [s[j]] + s[j + 1..];
  }

  /** Being distinct is a property of what is in a list, not of its order. */
  lemma {:induction false} DistinctIgnoresOrder(a: seq<Name>, b: seq<Name>)
    requires multiset(a) == multiset(b) && Distinct(a)
    ensures Distinct(b)
  {
    DistinctBag(a);
    forall i, j | 0 <= i < j < |b| ensures b[i] != b[j] {
      if b[i] == b[j] { TwiceInBag(b, i, j); }
    }
  }

  lemma {:induction false} WholeBag(a: multiset<Name>, b: multiset<Name>)
    requires a <= b && |a| == |b|
    ensures a == b
  {
    assert b == a + (b - a);
  }

  /** A draw of the whole pool is a reordering of it. */
  lemma {:induction false} DrawnWhole(pool: seq<Name>, state: nat)
    ensures multiset(Sampled(pool, |pool|, state)) == multiset(pool)
  {
    SampledFromPool(pool, |pool|, state);
    WholeBag(multiset(Sampled(pool, |pool|, state)), multiset(pool));
  }

  lemma {:induction false} OwnMeansDrawnDistinct(o: Options, seed: nat)
    requires Pairs(o, seed).Some?
    ensures OwnResolvers(Pairs(o, seed).value) <==> Distinct(DrawnResolvers(o, seed))
  {
    DrawnAreConfigured(o, seed);
    var pairs, drawn := Pairs(o, seed).value, DrawnResolvers(o, seed);
    forall i | 0 <= i < |drawn| ensures pairs[i].resolver.name == drawn[i] { assert drawn[i] in drawn; }
  }

  /** And when every resolver is needed, no resolver serves two pairs exactly when their names are distinct:
      with two of one name, two pairs share one, for every seed. */
  lemma {:induction false} OwnResolversExactlyWhen(o: Options, seed: nat)
    requires Pairs(o, seed).Some? && |Chosen(o, seed)| == |o.resolvers|
    ensures OwnResolvers(Pairs(o, seed).value) <==> Distinct(ResolverNames(o.resolvers))
  {
    var pool, drawn := ResolverNames(o.resolvers), DrawnResolvers(o, seed);
    OwnMeansDrawnDistinct(o, seed);
    DrawnWhole(pool, (seed + 1) % TWO64);
    if Distinct(drawn) { DistinctIgnoresOrder(drawn, pool); }
    if Distinct(pool) { DistinctIgnoresOrder(pool, drawn); }
  }

  /** Nothing checks that names are distinct. Exactly: an accepted command line is served for every seed
      if and only if sampling is used or the servers that match `--only` are no more than the resolvers. */
  lemma {:induction false} ServedExactlyWhen(o: Options, seed: nat)
    requires Accepted(o)
    ensures Pairs(o, seed).Some? <==> o.only.None? || |Named(o.servers, o.only.value)| <= |o.resolvers|
  {
    if o.only.None? { SamplingAsksDistinctOperators(o, seed); }
  }

  /** And no operator is asked twice if and only if sampling is used or there are as many operators as
      servers that match: the count the check should have compared, where it compares the list's length. */
  lemma {:induction false} OneEachExactlyWhen(o: Options, seed: nat)
    requires Accepted(o)
    ensures OneEach(Chosen(o, seed))
        <==> o.only.None? || |DistinctOf(Named(o.servers, o.only.value))| == |Named(o.servers, o.only.value)|
  {
    if o.only.None? { SamplingAsksDistinctOperators(o, seed); } else { CountTellsSharing(Named(o.servers, o.only.value)); }
  }

  function TwiceNamed(resolvers: seq<Resolver>): Options {
    Options(resolvers, [TimeServer("a", "h1", "X"), TimeServer("a", "h2", "X")], 1, 60, 0, Some(["a"]), false, false)
  }

  /** Two servers under one name and one operator: accepted, and then either that operator is asked twice
      or, with a single resolver, choosing fails. */
  lemma {:induction false} OneNameTwice(resolvers: seq<Resolver>, seed: nat)
    requires resolvers != []
    ensures Accepted(TwiceNamed(resolvers)) && !OneEach(Chosen(TwiceNamed(resolvers), seed))
    ensures |resolvers| == 1 ==> Pairs(TwiceNamed(resolvers), seed).None?
  {
    var o := TwiceNamed(resolvers);
    var a, b := TimeServer("a", "h1", "X"), TimeServer("a", "h2", "X");
    assert o.servers[1..] == [b] && o.servers[..1] == [a] && a in o.servers;
    assert Named([b], ["a"]) == [b];
    assert Named(o.servers, ["a"]) == [a, b];
    assert DistinctOf([a]) == ["X"];
    assert DistinctOf(o.servers) == ["X"];
    assert FirstUnknown(o.servers, ["a"]).None?;
  }

  /** Two resolvers under one name: accepted, and both pairs go through the first of them. */
  lemma {:induction false} OneResolverTwice(x: Resolver, y: Resolver, seed: nat) returns (o: Options)
    requires x.name == y.name
    ensures o.resolvers == [x, y] && NamesDistinct(o.servers) && Accepted(o)
    ensures Pairs(o, seed).Some? && |Pairs(o, seed).value| == 2
    ensures Pairs(o, seed).value[0].resolver == x == Pairs(o, seed).value[1].resolver
  {
    var a, b := TimeServer("a", "h1", "X"), TimeServer("b", "h2", "Y");
    o := Options([x, y], [a, b], 2, 60, 0, None, false, false);
    assert o.servers[..1] == [a] && DistinctOf([a]) == ["X"] && DistinctOf([a, b]) == ["X", "Y"];
    assert Names(o.servers) == ["a", "b"];
    SamplingAsksDistinctOperators(o, seed);
    DrawnAreConfigured(o, seed);
    var drawn := DrawnResolvers(o, seed);
    assert drawn[0] in drawn && drawn[1] in drawn;
    InPool(ResolverNames(o.resolvers), 2, (seed + 1) % TWO64, drawn[0]);
    InPool(ResolverNames(o.resolvers), 2, (seed + 1) % TWO64, drawn[1]);
  }
}
