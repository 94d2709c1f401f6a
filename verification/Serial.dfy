/** A serial line as a script of turns: what one read finds and how long it takes. Past the end of
    the script the adapter is gone. */
module Serial {
  import opened Bytes

  datatype Event = Idle | Arrived(chunk: seq<byte>) | Gone
  datatype Turn = Turn(elapsed: nat, event: Event)
  datatype Read = Count(chunk: seq<byte>) | Disconnected

  /** The bytes a script delivers. */
  function Received(turns: seq<Turn>): seq<byte> {
    if turns == [] then []
    else (if turns[0].event.Arrived? then turns[0].event.chunk else []) + Received(turns[1..])
  }

  lemma {:induction false} ReceivedConcat(a: seq<Turn>, b: seq<Turn>)
    ensures Received(a + b) == Received(a) + Received(b)
  {
    if a == [] {
      assert a + b == b;
    } else {
      assert (a + b)[1..] == a[1..] + b;
      ReceivedConcat(a[1..], b);
    }
  }

  function Elapsed(turns: seq<Turn>): nat {
    if turns == [] then 0 else Elapsed(turns[..|turns| - 1]) + turns[|turns| - 1].elapsed
  }

  /** What the next read finds. */
  function ReadOf(turns: seq<Turn>): Read {
    if turns == [] then Disconnected
    else
      match turns[0].event
      case Idle => Count([])
      case Arrived(chunk) => Count(chunk)
      case Gone => Disconnected
  }

  /** The clock when the `n`th byte had arrived, counted from the start of the script. */
  function ArrivedAt(past: seq<Turn>, n: nat): nat {
    if past == [] || |Received(past[..|past| - 1])| < n then Elapsed(past)
    else ArrivedAt(past[..|past| - 1], n)
  }

  lemma {:induction false} ArrivedEarlier(past: seq<Turn>, n: nat)
    ensures ArrivedAt(past, n) <= Elapsed(past)
  {
    if past != [] { ArrivedEarlier(past[..|past| - 1], n); }
  }

  /** Later turns do not change when a byte arrived. */
  lemma {:induction false} ArrivedStays(past: seq<Turn>, more: seq<Turn>, n: nat)
    requires n <= |Received(past)|
    ensures ArrivedAt(past + more, n) == ArrivedAt(past, n)
  {
    if more == [] {
      assert past + more == past;
    } else {
      var front := more[..|more| - 1];
      assert (past + more)[..|past + more| - 1] == past + front;
      ReceivedConcat(past, front);
      ArrivedStays(past, front, n);
    }
  }

  /** `ArrivedAt` means: some turns of that length of time brought `n` bytes, and no fewer turns did. */
  lemma {:induction false} ArrivedAtMeans(past: seq<Turn>, n: nat) returns (k: nat)
    requires n <= |Received(past)|
    ensures k <= |past| && ArrivedAt(past, n) == Elapsed(past[..k]) && n <= |Received(past[..k])|
    ensures forall j :: 0 <= j < k ==> |Received(past[..j])| < n
  {
    if past == [] || |Received(past[..|past| - 1])| < n {
      k := |past|;
      assert past[..k] == past;
      forall j | 0 <= j < k ensures |Received(past[..j])| < n {
        assert past[..k - 1] == past[..j] + past[j..k - 1];
        ReceivedConcat(past[..j], past[j..k - 1]);
      }
    } else {
      var front := past[..|past| - 1];
      k := ArrivedAtMeans(front, n);
      assert forall j :: 0 <= j <= k ==> past[..j] == front[..j];
    }
  }

  /** None of these turns found the adapter gone. */
  ghost predicate NoneGone(turns: seq<Turn>) {
    forall t <- turns :: !t.event.Gone?
  }

  /** The adapter was found gone by a read that began before the deadline, and by none before it: the turns
      ran out, or the last of them says so. */
  ghost predicate Lost(past: seq<Turn>, left: seq<Turn>, deadline: nat) {
    || (left == [] && NoneGone(past) && Elapsed(past) < deadline)
    || (past != [] && past[|past| - 1].event.Gone? && NoneGone(past[..|past| - 1]) && Elapsed(past[..|past| - 1]) < deadline)
  }

  /** Time and the script only move forward. */
  twostate predicate Onward(line: Line)
    reads line
  {
    && line.now >= old(line.now)
    && old(line.past) <= line.past
    && |line.turns| <= |old(line.turns)|
    && (|line.turns| == |old(line.turns)| ==> line.past == old(line.past) && line.turns == old(line.turns) && line.now == old(line.now))
    && (old(line.Timed()) ==> line.Timed())
  }

  class Line {
    var now: nat
    var turns: seq<Turn>
    ghost var past: seq<Turn>    // the turns already taken
    ghost const script: seq<Turn>

    constructor (script: seq<Turn>)
      ensures now == 0 && turns == script == this.script && past == [] && Timed()
    {
      now, turns, past, this.script := 0, script, [], script;
    }

    /** The clock is what the turns taken so far have added up to, and the rest of the script is to come. */
    ghost predicate Timed()
      reads this
    {
      now == Elapsed(past) && past + turns == script
    }

    /** The script has run out, or its last turn found the adapter gone. */
    ghost predicate Dead()
      reads this
    {
      turns == [] || (past != [] && past[|past| - 1].event.Gone?)
    }

    ghost predicate LostBy(deadline: nat)
      reads this
    {
      Lost(past, turns, deadline)
    }

    method ReadSome() returns (r: Read)
      modifies this
      ensures r == ReadOf(old(turns)) && Onward(this)
      ensures old(turns) == [] ==> unchanged(this)
      ensures old(turns) != [] ==> turns == old(turns)[1..] && past == old(past) + [old(turns)[0]]
                                   && now == old(now) + old(turns)[0].elapsed
      ensures Received(past) == Received(old(past)) + (if r.Count? then r.chunk else [])
      ensures r.Disconnected? ==> Dead() && (old(turns) != [] ==> past[|past| - 1].event.Gone?)
    {
      if turns == [] {
        assert Received(past) + [] == Received(past);
        return Disconnected;
      }
      r := ReadOf(turns);
      var turn := turns[0];
      ReceivedConcat(past, [turn]);
      assert Received([turn][1..]) == [];
      now := now + turn.elapsed;
      past := past + [turn];
      assert past[..|past| - 1] == old(past);
      turns := turns[1..];
    }
  }
}
