/** Node availability announcements: observed at every sweep, told only once a change has lasted.
  * Clock readings are in nanoseconds; what is stored is whole seconds. */
module Alerts {
  import opened Collections
  import opened Wrappers

  const SECOND := 1_000_000_000
  const DEBOUNCE := 120 * SECOND

  datatype Row = Row(announced: bool, observed: bool, changedAt: int, announcedAt: int)
  type Rows = map<string, Row>

  datatype Event = Event(node: string, online: bool, at: int)

  function Sec(now: int): int { now / SECOND }

  // ---------- one sweep, one node ----------

  // What a sweep does with one node: the observation it records, if any, and whether it gets as
  // far as marking an announcement.
  datatype Tick = Tick(now: int, look: Option<bool>, can: bool)

  function Looked(r: Option<Row>, t: Tick): Option<Row> {
    if t.look.None? then r
    else if r.None? then Some(Row(t.look.value, t.look.value, Sec(t.now), Sec(t.now)))
    else if r.value.observed == t.look.value then r
    else Some(r.value.(observed := t.look.value, changedAt := Sec(t.now)))
  }

  predicate Due(row: Row, now: int) {
    row.observed != row.announced && now - row.changedAt * SECOND >= DEBOUNCE
  }

  predicate Announces(r: Option<Row>, t: Tick) {
    t.can && Looked(r, t).Some? && Due(Looked(r, t).value, t.now)
  }

  function Step(r: Option<Row>, t: Tick): Option<Row> {
    var s := Looked(r, t);
    if Announces(r, t) then Some(s.value.(announced := s.value.observed, announcedAt := Sec(t.now))) else s
  }

  // ---------- a sweep over the fleet ----------

  function Get(rows: Rows, n: string): Option<Row> { if n in rows then Some(rows[n]) else None }

  // Everything a sweep takes from outside: who exists, who is up, which writes fail.
  datatype Round = Round(now: int, nodes: seq<string>, online: string -> bool,
                         unrecorded: set<string>, unlisted: bool, unmarked: set<string>, targets: nat)

  function TickFor(q: Round, n: string): Tick {
    Tick(q.now, if n in q.nodes && n !in q.unrecorded then Some(q.online(n)) else None,
         n in q.nodes && !q.unlisted && n !in q.unmarked)
  }

  // What is sent about one node.
  function Notice(r: Option<Row>, t: Tick, n: string, targets: nat): seq<Event> {
    if Announces(r, t) && targets > 0 then [Event(n, Looked(r, t).value.observed, Looked(r, t).value.changedAt)] else []
  }

  // The notifications, in the order of the node list.
  function Told(rows: Rows, q: Round, i: nat): seq<Event>
    requires i <= |q.nodes|
  {
    if i == 0 then [] else
      var n := q.nodes[i - 1];
      Told(rows, q, i - 1) + Notice(Get(rows, n), TickFor(q, n), n, q.targets)
  }

  // A node is told of exactly when its change is marked and somebody is listening.
  lemma {:induction false} ToldExactly(rows: Rows, q: Round, i: nat, n: string)
    requires i <= |q.nodes|
    ensures (exists e :: e in Told(rows, q, i) && e.node == n) <==>
            n in q.nodes[..i] && q.targets > 0 && Announces(Get(rows, n), TickFor(q, n))
    ensures forall e :: e in Told(rows, q, i) && e.node == n ==>
              e.online == Step(Get(rows, n), TickFor(q, n)).value.announced
  {
    if i > 0 {
      ToldExactly(rows, q, i - 1, n);
      assert q.nodes[..i] == q.nodes[..i - 1] + [q.nodes[i - 1]];
      var m := q.nodes[i - 1];
      if Announces(Get(rows, m), TickFor(q, m)) && q.targets > 0 {
        var s := Looked(Get(rows, m), TickFor(q, m)).value;
        assert Told(rows, q, i) == Told(rows, q, i - 1) + [Event(m, s.observed, s.changedAt)];
        assert Event(m, s.observed, s.changedAt) in Told(rows, q, i);
      }
    }
  }

  lemma SeenIsRecorded(rows: Rows, q: Round)
    ensures forall n :: n in q.nodes && n !in q.unrecorded ==>
              var s := Step(Get(rows, n), TickFor(q, n)); s.Some? && s.value.observed == q.online(n)
  {
  }

  lemma ToldIsOnRecord(rows: Rows, q: Round)
    ensures forall e :: e in Told(rows, q, |q.nodes|) ==>
              e.node in q.nodes &&
              var s := Step(Get(rows, e.node), TickFor(q, e.node));
              s.Some? && e.online == s.value.observed == s.value.announced
  {
    forall e | e in Told(rows, q, |q.nodes|)
      ensures e.node in q.nodes &&
              var s := Step(Get(rows, e.node), TickFor(q, e.node));
              s.Some? && e.online == s.value.observed == s.value.announced
    {
      ToldExactly(rows, q, |q.nodes|, e.node);
      assert q.nodes[..|q.nodes|] == q.nodes;
    }
  }

  // The first i nodes are settled, the rest only looked at.
  ghost predicate Swept(was: Rows, rows: Rows, q: Round, i: nat)
    requires i <= |q.nodes|
  {
    forall n :: Get(rows, n) == if n in q.nodes[..i] then Step(Get(was, n), TickFor(q, n)) else Looked(Get(was, n), TickFor(q, n))
  }

  lemma SweptLooked(was: Rows, rows: Rows, q: Round, i: nat)
    requires i < |q.nodes| && Unique(q.nodes) && Swept(was, rows, q, i)
    ensures Get(rows, q.nodes[i]) == Looked(Get(was, q.nodes[i]), TickFor(q, q.nodes[i]))
  {
    assert q.nodes[i] !in q.nodes[..i];
  }

  lemma SweptOneMore(was: Rows, rows: Rows, rows': Rows, q: Round, i: nat)
    requires i < |q.nodes| && Swept(was, rows, q, i)
    requires Get(rows', q.nodes[i]) == Step(Get(was, q.nodes[i]), TickFor(q, q.nodes[i]))
    requires forall m :: m != q.nodes[i] ==> Get(rows', m) == Get(rows, m)
    ensures Swept(was, rows', q, i + 1)
  {
    assert q.nodes[..i + 1] == q.nodes[..i] + [q.nodes[i]];
  }

  lemma SweptAll(was: Rows, rows: Rows, q: Round)
    requires Swept(was, rows, q, |q.nodes|)
    ensures forall n :: Get(rows, n) == Step(Get(was, n), TickFor(q, n))
  {
    assert q.nodes[..|q.nodes|] == q.nodes;
  }

  class Announcer {
    var rows: Rows

    // Insert, or on conflict move changed_at only when the observation differs.
    method ObserveNode(n: string, online: bool, now: int)
      modifies this
      ensures rows.Keys == old(rows).Keys + {n}
      ensures Get(rows, n) == Looked(Get(old(rows), n), Tick(now, Some(online), false))
      ensures forall m :: m != n ==> Get(rows, m) == Get(old(rows), m)
    {
      if n !in rows {
        rows := rows[n := Row(online, online, now / SECOND, now / SECOND)];
      } else {
        var row := rows[n];
        var changedAt := if row.observed == online then row.changedAt else now / SECOND;
        rows := rows[n := row.(changedAt := changedAt, observed := online)];
      }
    }

    method MarkAnnounced(n: string, online: bool, now: int)
      requires n in rows
      modifies this
      ensures rows == old(rows)[n := old(rows)[n].(announced := online, announcedAt := Sec(now))]
    {
      rows := rows[n := rows[n].(announced := online, announcedAt := now / SECOND)];
    }

    method ObserveAll(q: Round)
      requires Unique(q.nodes)
      modifies this
      ensures forall n :: Get(rows, n) == Looked(Get(old(rows), n), TickFor(q, n))
    {
      for i := 0 to |q.nodes|
        invariant forall n :: n in q.nodes[..i] ==> Get(rows, n) == Looked(Get(old(rows), n), TickFor(q, n))
        invariant forall n :: n !in q.nodes[..i] ==> Get(rows, n) == Get(old(rows), n)
      {
        var n := q.nodes[i];
        assert q.nodes[..i + 1] == q.nodes[..i] + [n] && n !in q.nodes[..i];
        if n !in q.unrecorded { ObserveNode(n, q.online(n), q.now); }
      }
      assert q.nodes[..|q.nodes|] == q.nodes;
    }

    // Marks one node's change if it has settled; the mark comes before the message.
    method Settle(q: Round, n: string, ghost before: Option<Row>) returns (told: seq<Event>)
      requires n in q.nodes && !q.unlisted && Get(rows, n) == Looked(before, TickFor(q, n))
      modifies this
      ensures Get(rows, n) == Step(before, TickFor(q, n))
      ensures forall m :: m != n ==> Get(rows, m) == Get(old(rows), m)
      ensures told == Notice(before, TickFor(q, n), n, q.targets)
    {
      if n !in rows || rows[n].observed == rows[n].announced { return []; }
      if q.now - rows[n].changedAt * SECOND < DEBOUNCE { return []; }
      if n in q.unmarked { return []; }
      var row := rows[n];
      MarkAnnounced(n, row.observed, q.now);
      if q.targets == 0 { return []; }
      return [Event(n, row.observed, row.changedAt)];
    }

    method Sweep(q: Round) returns (told: seq<Event>)
      requires Unique(q.nodes)
      modifies this
      ensures forall n :: Get(rows, n) == Step(Get(old(rows), n), TickFor(q, n))
      ensures told == if q.unlisted then [] else Told(old(rows), q, |q.nodes|)
      // what is on record is what was seen, and what is told is what is on record
      ensures forall n :: n in q.nodes && n !in q.unrecorded ==> n in rows && rows[n].observed == q.online(n)
      ensures forall e :: e in told ==>
                e.node in q.nodes && e.node in rows && e.online == rows[e.node].observed == rows[e.node].announced
    {
      SeenIsRecorded(rows, q);
      ToldIsOnRecord(rows, q);
      ObserveAll(q);
      told := [];
      if q.unlisted { return; }
      ghost var was := old(rows);
      for i := 0 to |q.nodes|
        invariant Swept(was, rows, q, i)
        invariant told == Told(old(rows), q, i)
      {
        var n := q.nodes[i];
        ghost var now := rows;
        SweptLooked(was, now, q, i);
        var more := Settle(q, n, Get(was, n));
        SweptOneMore(was, now, rows, q, i);
        told := told + more;
      }
      SweptAll(was, rows, q);
    }
  }

  // ---------- a node's life ----------

  // The row after the first i sweeps.
  function After(ts: seq<Tick>, i: nat): Option<Row>
    requires i <= |ts|
  {
    if i == 0 then None else Step(After(ts, i - 1), ts[i - 1])
  }

  function TicksOf(qs: seq<Round>, n: string): seq<Tick> { seq(|qs|, i requires 0 <= i < |qs| => TickFor(qs[i], n)) }

  ghost predicate FleetRun(states: seq<Rows>, qs: seq<Round>) {
    && |states| == |qs| + 1 && states[0] == map[]
    && forall i, n :: 0 <= i < |qs| ==> Get(states[i + 1], n) == Step(Get(states[i], n), TickFor(qs[i], n))
  }

  // Sweeping the fleet is sweeping each node alone, so what follows holds of every node.
  lemma {:induction false} EachNodeAlone(states: seq<Rows>, qs: seq<Round>, n: string, i: nat)
    requires FleetRun(states, qs) && i <= |qs|
    ensures Get(states[i], n) == After(TicksOf(qs, n), i)
  {
    if i > 0 {
      EachNodeAlone(states, qs, n, i - 1);
      assert Get(states[i - 1 + 1], n) == Step(Get(states[i - 1], n), TickFor(qs[i - 1], n));
    }
  }

  predicate Marks(ts: seq<Tick>, i: nat)
    requires i < |ts|
  {
    Announces(After(ts, i), ts[i])
  }

  // How many of the first i sweeps marked an announcement.
  function MarkCount(ts: seq<Tick>, i: nat): nat
    requires i <= |ts|
  {
    if i == 0 then 0 else MarkCount(ts, i - 1) + if Marks(ts, i - 1) then 1 else 0
  }

  predicate Ordered(ts: seq<Tick>) { forall i, j :: 0 <= i <= j < |ts| ==> ts[i].now <= ts[j].now }

  predicate First(ts: seq<Tick>, f: nat) {
    f < |ts| && ts[f].look.Some? && forall i :: 0 <= i < f ==> ts[i].look.None?
  }

  // From c on, nothing but v was recorded, starting with c itself.
  predicate Steady(ts: seq<Tick>, c: nat, i: nat, v: bool) {
    c < i <= |ts| && ts[c].look == Some(v) && forall k :: c <= k < i && ts[k].look.Some? ==> ts[k].look.value == v
  }

  lemma {:induction false} NothingBeforeFirst(ts: seq<Tick>, f: nat, i: nat)
    requires First(ts, f) && i <= f
    ensures After(ts, i) == None && MarkCount(ts, i) == 0
  {
    if i > 0 { NothingBeforeFirst(ts, f, i - 1); }
  }

  // Every mark flips what is announced, and nothing else does; a first sighting announces nothing.
  lemma {:induction false} MarksFlip(ts: seq<Tick>, f: nat, i: nat)
    requires First(ts, f) && f < i <= |ts|
    ensures After(ts, i).Some?
    ensures After(ts, i).value.announced == (if MarkCount(ts, i) % 2 == 0 then ts[f].look.value else !ts[f].look.value)
    ensures i == f + 1 ==> MarkCount(ts, i) == 0
  {
    if i == f + 1 {
      NothingBeforeFirst(ts, f, f);
    } else {
      MarksFlip(ts, f, i - 1);
    }
  }

  function MarkedState(ts: seq<Tick>, i: nat): bool
    requires i < |ts| && Marks(ts, i)
  {
    Looked(After(ts, i), ts[i]).value.observed
  }

  lemma {:induction false} NothingSeen(ts: seq<Tick>, i: nat)
    requires i <= |ts| && After(ts, i).None?
    ensures forall k :: 0 <= k < i ==> ts[k].look.None?
  {
    if i > 0 { NothingSeen(ts, i - 1); }
  }

  lemma {:induction false} SomethingWasSeen(ts: seq<Tick>, i: nat) returns (f: nat)
    requires i <= |ts| && After(ts, i).Some?
    ensures First(ts, f) && f < i
  {
    if After(ts, i - 1).Some? { f := SomethingWasSeen(ts, i - 1); }
    else { f := i - 1; NothingSeen(ts, i - 1); }
  }

  // Two marks name the same state exactly when an odd number of marks lies between them; so
  // neighbouring marks always alternate, and so do notifications nobody missed.
  lemma SameStateByParity(ts: seq<Tick>, i: nat, j: nat)
    requires i < j < |ts| && Marks(ts, i) && Marks(ts, j)
    ensures MarkedState(ts, i) == MarkedState(ts, j) <==> (MarkCount(ts, j) - MarkCount(ts, i + 1)) % 2 == 1
  {
    var f := SomethingWasSeen(ts, i + 1);
    MarksFlip(ts, f, i + 1);
    MarksFlip(ts, f, j + 1);
    assert After(ts, i + 1).value.announced == MarkedState(ts, i);
    assert After(ts, j + 1).value.announced == MarkedState(ts, j);
  }

  lemma {:induction false} NoMarksBetween(ts: seq<Tick>, i: nat, j: nat)
    requires i <= j <= |ts| && forall k :: i <= k < j ==> !Marks(ts, k)
    ensures MarkCount(ts, j) == MarkCount(ts, i)
  {
    if i < j { NoMarksBetween(ts, i, j - 1); }
  }

  lemma NeighboursAlternate(ts: seq<Tick>, i: nat, j: nat)
    requires i < j < |ts| && Marks(ts, i) && Marks(ts, j)
    requires forall k :: i < k < j ==> !Marks(ts, k)
    ensures MarkedState(ts, j) != MarkedState(ts, i)
  {
    NoMarksBetween(ts, i + 1, j);
    SameStateByParity(ts, i, j);
  }

  // The first mark contradicts the first sighting, which is itself never announced.
  lemma FirstMarkIsAChange(ts: seq<Tick>, f: nat, i: nat)
    requires First(ts, f) && i < |ts| && Marks(ts, i) && MarkCount(ts, i) == 0
    ensures f < i && MarkedState(ts, i) != ts[f].look.value
  {
    var g := SomethingWasSeen(ts, i + 1);
    MarksFlip(ts, f, i + 1);
  }

  // ---------- how long a state has held ----------

  // changed_at is the second in which the present run of observations began.
  lemma {:induction false} ChangedAtDates(ts: seq<Tick>, i: nat) returns (c: nat)
    requires i <= |ts| && After(ts, i).Some?
    ensures Steady(ts, c, i, After(ts, i).value.observed) && After(ts, i).value.changedAt == Sec(ts[c].now)
  {
    var r, t := After(ts, i - 1), ts[i - 1];
    if r.None? || (t.look.Some? && t.look.value != r.value.observed) {
      c := i - 1;
    } else {
      c := ChangedAtDates(ts, i - 1);
    }
  }

  // A mark comes after sweeps that recorded nothing but the state it names, over the debounce
  // counted from the start of the second of the first of them; in real time that is more than the
  // debounce less one second.
  lemma MarkedHasHeld(ts: seq<Tick>, i: nat) returns (c: nat)
    requires i < |ts| && Marks(ts, i)
    ensures Steady(ts, c, i + 1, MarkedState(ts, i))
    ensures Sec(ts[i].now) - Sec(ts[c].now) >= 120
    ensures ts[i].now - ts[c].now > DEBOUNCE - SECOND
  {
    c := ChangedAtDates(ts, i + 1);
  }

  lemma {:induction false} ObservedIsLast(ts: seq<Tick>, c: nat, i: nat, v: bool)
    requires Steady(ts, c, i, v)
    ensures After(ts, i).Some? && After(ts, i).value.observed == v
    ensures After(ts, i).value.changedAt <= Sec(ts[c].now) || !Ordered(ts)
  {
    if i == c + 1 {
      if After(ts, c).Some? { var b := ChangedAtDates(ts, c); }
    } else {
      ObservedIsLast(ts, c, i - 1, v);
    }
  }

  // Between two marks lies a whole debounce, to the second.
  lemma MarksKeepApart(ts: seq<Tick>, i: nat, j: nat)
    requires i < j < |ts| && Marks(ts, i) && Marks(ts, j) && Ordered(ts)
    ensures Sec(ts[j].now) - Sec(ts[i].now) >= 120 && ts[j].now - ts[i].now > DEBOUNCE - SECOND
    decreases j - i
  {
    if k :| i < k < j && Marks(ts, k) {
      MarksKeepApart(ts, i, k);
      assert ts[k].now <= ts[j].now;
    } else {
      NeighboursAlternate(ts, i, j);
      var c := MarkedHasHeld(ts, j);
      if c <= i {
        ObservedIsLast(ts, c, i + 1, MarkedState(ts, j));
      }
      assert ts[i].now <= ts[c].now;
    }
  }

  // A change that lasts is announced: by the time a state has held that long, the first sweep that
  // gets as far as announcing has done so, or it had been announced already.
  lemma LastingChangeIsAnnounced(ts: seq<Tick>, c: nat, i: nat, v: bool)
    requires Ordered(ts) && i < |ts| && Steady(ts, c, i + 1, v)
    requires ts[i].can && ts[i].now - Sec(ts[c].now) * SECOND >= DEBOUNCE
    ensures After(ts, i + 1).Some? && After(ts, i + 1).value.announced == v
  {
    ObservedIsLast(ts, c, i + 1, v);
  }

  // A real debounce is not guaranteed: seen down at the end of one second, told a nanosecond over
  // 119 seconds later.
  lemma HeldLessThanTheDebounce()
    ensures exists ts: seq<Tick> :: Ordered(ts) && |ts| == 3 && Marks(ts, 2) && Steady(ts, 1, 3, MarkedState(ts, 2)) &&
                         ts[0].look == Some(true) && ts[2].now - ts[1].now == 119 * SECOND + 1
  {
    var ts := [Tick(0, Some(true), true), Tick(SECOND - 1, Some(false), true), Tick(DEBOUNCE, Some(false), true)];
    assert After(ts, 1) == Some(Row(true, true, 0, 0));
    assert After(ts, 2) == Some(Row(true, false, 0, 0));
    assert Marks(ts, 2);
  }

  // The debounce is kept in real time exactly for a change first seen on the very second: after a
  // change first seen by the sweep c, every sweep that can announce it comes a whole debounce later
  // if and only if c's clock read a whole number of seconds.
  lemma DebounceKeptExactly(ts: seq<Tick>, i: nat) returns (c: nat)
    requires i <= |ts| && After(ts, i).Some? && After(ts, i).value.observed != After(ts, i).value.announced
    ensures Steady(ts, c, i, After(ts, i).value.observed)
    ensures (forall t: Tick :: Announces(After(ts, i), t) && Looked(After(ts, i), t) == After(ts, i) ==>
               t.now - ts[c].now >= DEBOUNCE) <==> ts[c].now % SECOND == 0
  {
    c := ChangedAtDates(ts, i);
    var row := After(ts, i).value;
    var first := Tick(Sec(ts[c].now) * SECOND + DEBOUNCE, None, true);
    assert Announces(After(ts, i), first) && Looked(After(ts, i), first) == After(ts, i);
  }

  // A mark is sent on only while some target is enabled.
  predicate Sends(ts: seq<Tick>, enabled: seq<bool>, i: nat)
    requires i < |ts| == |enabled|
  {
    Marks(ts, i) && enabled[i]
  }

  // Neighbouring notifications contradict each other exactly when an even number of marks went
  // unsent between them.
  lemma SentAlternateExactly(ts: seq<Tick>, enabled: seq<bool>, i: nat, k: nat)
    requires i < k < |ts| == |enabled| && Sends(ts, enabled, i) && Sends(ts, enabled, k)
    requires forall j :: i < j < k ==> !Sends(ts, enabled, j)
    ensures MarkedState(ts, i) != MarkedState(ts, k) <==> (MarkCount(ts, k) - MarkCount(ts, i + 1)) % 2 == 0
  {
    SameStateByParity(ts, i, k);
  }

  // Down, up and down again, each held for the debounce.
  function DownUpDown(): seq<Tick> {
    [Tick(0, Some(true), true), Tick(DEBOUNCE, Some(false), true), Tick(2 * DEBOUNCE, Some(false), true),
     Tick(3 * DEBOUNCE, Some(true), true), Tick(4 * DEBOUNCE, Some(true), true),
     Tick(5 * DEBOUNCE, Some(false), true), Tick(6 * DEBOUNCE, Some(false), true)]
  }

  lemma DownUpDownMarks()
    ensures var ts := DownUpDown();
            && !Marks(ts, 3) && Marks(ts, 2) && !MarkedState(ts, 2) && Marks(ts, 4) && MarkedState(ts, 4)
            && !Marks(ts, 5) && Marks(ts, 6) && !MarkedState(ts, 6)
  {
    var ts := DownUpDown();
    assert After(ts, 1) == Some(Row(true, true, 0, 0));
    assert After(ts, 2) == Some(Row(true, false, 120, 0));
    assert After(ts, 3) == Some(Row(false, false, 120, 240));
    assert After(ts, 4) == Some(Row(false, true, 360, 240));
    assert After(ts, 5) == Some(Row(true, true, 360, 480));
    assert After(ts, 6) == Some(Row(true, false, 600, 480));
  }

  // With the targets off for the middle one: two messages running, both "offline".
  lemma SentNeedNotAlternate()
    ensures exists ts, enabled: seq<bool>, i: nat, k: nat ::
      i < k < |ts| == |enabled| && Ordered(ts) && Sends(ts, enabled, i) && Sends(ts, enabled, k) &&
      (forall j :: i < j < k ==> !Sends(ts, enabled, j)) && MarkedState(ts, i) == MarkedState(ts, k)
  {
    var ts, enabled := DownUpDown(), [true, true, true, false, false, false, true];
    DownUpDownMarks();
    assert Sends(ts, enabled, 2) && Sends(ts, enabled, 6) && MarkedState(ts, 2) == MarkedState(ts, 6);
  }
}
