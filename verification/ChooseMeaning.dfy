/** Which command lines are refused, told by counting operators as a set. */
module ChooseMeaning {
  import opened Bytes
  import opened Quorum
  import opened Choose

  ghost function Operators(servers: seq<TimeServer>): set<Name> {
    set s | s in servers :: s.operator
  }

  /** The configured servers that a list of names picks. */
  ghost function OperatorsNamed(servers: seq<TimeServer>, only: seq<Name>): set<Name> {
    set s | s in servers && s.name in only :: s.operator
  }

  lemma {:induction false} DistinctCount(s: seq<Name>)
    requires Distinct(s)
    ensures |s| == |set x | x in s|
  {
    if s != [] {
      var front, last := s[..|s| - 1], s[|s| - 1];
      assert forall i, j :: 0 <= i < j < |front| ==> front[i] == s[i] && front[j] == s[j];
      DistinctCount(front);
      assert last !in front by { assert forall i :: 0 <= i < |front| ==> front[i] == s[i]; }
      assert s == front + [last];
      assert (set x | x in s) == (set x | x in front) + {last};
    }
  }

  lemma {:induction false} OperatorsCount(servers: seq<TimeServer>)
    ensures |DistinctOf(servers)| == |Operators(servers)|
  {
    DistinctOfIsExact(servers);
    DistinctCount(DistinctOf(servers));
    forall p ensures p in Operators(servers) <==> p in DistinctOf(servers) {
      assert p in DistinctOf(servers) <==> HasOperator(servers, p);
    }
    assert Operators(servers) == set x | x in DistinctOf(servers);
  }

  lemma {:induction false} NamedCount(servers: seq<TimeServer>, only: seq<Name>)
    ensures |DistinctOf(Named(servers, only))| == |OperatorsNamed(servers, only)|
  {
    OperatorsCount(Named(servers, only));
    NamedAreNamed(servers, only);
    assert Operators(Named(servers, only)) == OperatorsNamed(servers, only);
  }

  ghost predicate Nobodys(servers: seq<TimeServer>, n: Name) {
    forall s <- servers :: s.name != n
  }

  /** The first name of a list that no configured server has. */
  ghost predicate FirstStranger(servers: seq<TimeServer>, only: seq<Name>, n: Name) {
    exists i :: 0 <= i < |only| && only[i] == n && Nobodys(servers, n) && forall j :: 0 <= j < i ==> !Nobodys(servers, only[j])
  }

  lemma {:induction false} StrangerIs(servers: seq<TimeServer>, only: seq<Name>)
    ensures var r := FirstUnknown(servers, only);
            if r.None? then forall n <- only :: !Nobodys(servers, n) else FirstStranger(servers, only, r.value)
  {
    if only != [] {
      StrangerIs(servers, only[1..]);
      assert Configured(servers, only[0]) <==> !Nobodys(servers, only[0]);
      var rest := FirstUnknown(servers, only[1..]);
      if !Nobodys(servers, only[0]) && rest.Some? {
        var i :| 0 <= i < |only| - 1 && only[1..][i] == rest.value && Nobodys(servers, rest.value)
                 && forall j :: 0 <= j < i ==> !Nobodys(servers, only[1..][j]);
        forall j | 0 <= j < i + 1 ensures !Nobodys(servers, only[j]) {
          if j > 0 { assert only[j] == only[1..][j - 1]; }
        }
        assert only[i + 1] == rest.value;
      }
    }
  }

  /** Why a list of names is refused: it is empty, one of them is nobody's, those it picks have fewer
      operators than it has names, or there are fewer resolvers. */
  lemma {:induction false} OnlyRefusedIs(o: Options, only: seq<Name>)
    ensures var r := OnlyRefused(o, only);
            if only == [] then r == Some(OnlyNobody)
            else if exists n <- only :: Nobodys(o.servers, n)
              then r.Some? && r.value.OnlyUnknown? && FirstStranger(o.servers, only, r.value.name)
            else if |OperatorsNamed(o.servers, only)| < |only| then r == Some(OnlySharesOperators)
            else if |o.resolvers| < |only| then r == Some(OnlyTooFewResolvers)
            else r.None?
  {
    StrangerIs(o.servers, only);
    NamedCount(o.servers, only);
  }

  /** Exactly which command lines are refused, and for what, the first reason being the one reported. */
  lemma {:induction false} RefusedIs(o: Options)
    ensures var r := Refused(o);
            if o.resolvers == [] then r == Some(NoResolver)
            else if o.servers == [] then r == Some(NoServer)
            else if o.sample == 0 then r == Some(SampleOfNone)
            else if o.sample > |set s | s in o.servers :: s.operator| then r == Some(TooFewOperators)
            else if o.sample > |o.resolvers| then r == Some(TooFewResolvers)
            else if o.only.None? then r.None?
            else if o.only.value == [] then r == Some(OnlyNobody)
            else if exists n <- o.only.value :: Nobodys(o.servers, n)
              then r.Some? && r.value.OnlyUnknown? && FirstStranger(o.servers, o.only.value, r.value.name)
            else if |set s | s in o.servers && s.name in o.only.value :: s.operator| < |o.only.value| then r == Some(OnlySharesOperators)
            else if |o.resolvers| < |o.only.value| then r == Some(OnlyTooFewResolvers)
            else r.None?
  {
    OperatorsCount(o.servers);
    if o.only.Some? { OnlyRefusedIs(o, o.only.value); }
  }
}
