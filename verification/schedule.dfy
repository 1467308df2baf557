/** The timetable of lib/solanum/schedule.rb: `[time, id]` entries kept in
    ascending order of time.  The clock is a parameter (`now`) and the mutex
    is not modelled. */
module Schedule {
  import opened Wrappers
  import opened Sorting

  /** One `[time, id]` entry. */
  datatype Entry<Id> = Entry(time: real, id: Id)

  function EntryTime<Id>(e: Entry<Id>): real { e.time }

  /** A schedule: the entries of its timetable. */
  datatype Schedule<Id> = Schedule(timetable: seq<Entry<Id>>)

  /** The invariant every operation keeps: the timetable is ascending by time. */
  predicate Valid<Id>(s: Schedule<Id>) {
    SortedBy(s.timetable, EntryTime)
  }

  /** `Schedule.new`. */
  function Empty<Id>(): (s: Schedule<Id>)
    ensures Valid(s) && |s.timetable| == 0
  {
    Schedule([])
  }

  /** `insert!(time, id)`: appends the entry and re-sorts the whole timetable
      by time; returns the new schedule and the entry. */
  function Insert<Id>(s: Schedule<Id>, time: real, id: Id): (r: (Schedule<Id>, Entry<Id>))
    ensures Valid(r.0)
    ensures multiset(r.0.timetable) == multiset(s.timetable) + multiset{Entry(time, id)}
    ensures r.1 == Entry(time, id)
  {
    var entry := Entry(time, id);
    (Schedule(SortBy(s.timetable + [entry], EntryTime)), entry)
  }

  /** `peek_next`: the first entry, nil for an empty timetable. */
  function PeekNext<Id>(s: Schedule<Id>): (r: Option<Entry<Id>>)
    ensures r.None? <==> |s.timetable| == 0
    ensures r.Some? ==> r.value in s.timetable
    ensures r.Some? && Valid(s) ==> forall e :: e in s.timetable ==> r.value.time <= e.time
  {
    if |s.timetable| == 0 then None else Some(s.timetable[0])
  }

  /** `next_wait`: seconds from `now` until the first entry, nil when empty;
      negative when that entry is already overdue. */
  function NextWait<Id>(s: Schedule<Id>, now: real): (r: Option<real>)
    ensures r.None? <==> |s.timetable| == 0
    ensures r.Some? && Valid(s) ==> forall e :: e in s.timetable ==> now + r.value <= e.time
    ensures r.Some? ==> exists e :: e in s.timetable && now + r.value == e.time
  {
    match PeekNext(s)
    case None => None
    case Some(entry) => Some(entry.time - now)
  }

  /** `pop_ready!`: when the first entry is due (`now >= time`), removes it and
      returns its id; otherwise leaves the schedule alone and returns nil. */
  function PopReady<Id>(s: Schedule<Id>, now: real): (r: (Schedule<Id>, Option<Id>))
    ensures r.1.Some? <==> |s.timetable| > 0 && s.timetable[0].time <= now
    ensures r.1.None? ==> r.0 == s
    ensures r.1.Some? ==> s.timetable == [Entry(s.timetable[0].time, r.1.value)] + r.0.timetable
    ensures Valid(s) ==> Valid(r.0)
  {
    if |s.timetable| > 0 && now >= s.timetable[0].time then
      (Schedule(s.timetable[1..]), Some(s.timetable[0].id))
    else (s, None)
  }

  /** Waiting is over exactly when an entry is ready to pop. */
  lemma WaitOverIffReady<Id>(s: Schedule<Id>, now: real)
    ensures NextWait(s, now).Some? && NextWait(s, now).value <= 0.0 <==> PopReady(s, now).1.Some?
  {
  }

  /** In a valid schedule, a popped entry is due and no entry is earlier. */
  lemma PopReadyEarliest<Id>(s: Schedule<Id>, now: real)
    requires Valid(s)
    requires PopReady(s, now).1.Some?
    ensures var e := s.timetable[0];
      e.time <= now && e.id == PopReady(s, now).1.value &&
      forall x :: x in PopReady(s, now).0.timetable ==> e.time <= x.time
  {
    var rest := PopReady(s, now).0.timetable;
    forall x | x in rest ensures s.timetable[0].time <= x.time {
      var j :| 0 <= j < |rest| && rest[j] == x;
      assert s.timetable[j + 1] == x;
    }
  }

  /** When one entry is strictly earlier than all others, a valid timetable
      holding it starts with it, whatever order sorting gave to ties. */
  lemma {:induction false} HeadIsEarliest<Id>(t: seq<Entry<Id>>, e: Entry<Id>)
    requires SortedBy(t, EntryTime)
    requires e in multiset(t)
    requires forall x :: x in multiset(t) ==> x == e || e.time < x.time
    ensures |t| > 0 && t[0] == e
  {
    var j :| 0 <= j < |t| && t[j] == e;
    assert t[0] in multiset(t);
    assert EntryTime(t[0]) <= EntryTime(t[j]);
  }

  /** Three inserts into an empty schedule leave exactly the three entries. */
  lemma ThreeInserts<Id>(s0: Schedule<Id>, ta: real, a: Id, tb: real, b: Id, tc: real, c: Id)
    requires |s0.timetable| == 0
    ensures var s1 := Insert(s0, ta, a).0;
      var s2 := Insert(s1, tb, b).0;
      var s3 := Insert(s2, tc, c).0;
      Valid(s3) && multiset(s3.timetable) == multiset{Entry(ta, a), Entry(tb, b), Entry(tc, c)}
  {
    var s1 := Insert(s0, ta, a).0;
    var s2 := Insert(s1, tb, b).0;
    var s3 := Insert(s2, tc, c).0;
    assert multiset(s0.timetable) == multiset{};
    assert multiset(s3.timetable) == multiset{Entry(ta, a)} + multiset{Entry(tb, b)} + multiset{Entry(tc, c)};
  }

  /** Dropping the first entry of a valid timetable leaves a valid timetable
      of the other entries. */
  lemma DropHead<Id>(t: seq<Entry<Id>>)
    requires |t| > 0 && SortedBy(t, EntryTime)
    ensures SortedBy(t[1..], EntryTime)
    ensures multiset(t[1..]) == multiset(t) - multiset{t[0]}
  {
    assert t == [t[0]] + t[1..];
    forall i, j | 0 <= i < j < |t[1..]| ensures EntryTime(t[1..][i]) <= EntryTime(t[1..][j]) {
      assert t[1..][i] == t[i + 1] && t[1..][j] == t[j + 1];
    }
  }

  /** The next entry and what pops around it, for any valid timetable holding
      entries at `T+5`, `T+1` and `T+3`. */
  lemma PopScenario<Id>(s3: Schedule<Id>, t0: real, a: Id, b: Id, c: Id, early: real, late: real)
    requires early < t0 + 1.0 <= late < t0 + 3.0
    requires Valid(s3)
    requires multiset(s3.timetable) == multiset{Entry(t0 + 5.0, a), Entry(t0 + 1.0, b), Entry(t0 + 3.0, c)}
    ensures PeekNext(s3) == Some(Entry(t0 + 1.0, b))
    ensures PopReady(s3, early) == (s3, None)
    ensures PopReady(s3, late).1 == Some(b)
    ensures PeekNext(PopReady(s3, late).0) == Some(Entry(t0 + 3.0, c))
  {
    EarliestTwo(s3.timetable, Entry(t0 + 1.0, b), Entry(t0 + 3.0, c), Entry(t0 + 5.0, a));
  }

  /** A valid timetable of three entries with distinct times holds them in
      time order. */
  lemma EarliestTwo<Id>(t: seq<Entry<Id>>, x: Entry<Id>, y: Entry<Id>, z: Entry<Id>)
    requires SortedBy(t, EntryTime)
    requires multiset(t) == multiset{x, y, z}
    requires x.time < y.time < z.time
    ensures |t| > 1 && t[0] == x && t[1] == y
  {
    assert |t| > 0 && t[0] == x by {
      HeadIsEarliest(t, x);
    }
    var rest := t[1..];
    assert SortedBy(rest, EntryTime) && multiset(rest) == multiset{y, z} by {
      DropHead(t);
      RemoveFirst(x, y, z);
    }
    assert |rest| > 0 && rest[0] == y by {
      HeadIsEarliest(rest, y);
    }
  }

  /** Removing one of three distinct entries leaves the other two. */
  lemma RemoveFirst<Id>(x: Entry<Id>, y: Entry<Id>, z: Entry<Id>)
    requires x != y && x != z
    ensures multiset{x, y, z} - multiset{x} == multiset{y, z}
  {
  }

  /** A walk-through: from an empty schedule, inserting
      `T+5`, `T+1` and `T+3` makes `T+1` the next entry; nothing is ready before
      `T+1`; at `T+1` its id pops and `T+3` becomes next. */
  lemma InsertPopScenario<Id>(t0: real, a: Id, b: Id, c: Id, early: real, late: real)
    requires early < t0 + 1.0 <= late < t0 + 3.0
    ensures var s3 := Insert(Insert(Insert(Empty(), t0 + 5.0, a).0, t0 + 1.0, b).0, t0 + 3.0, c).0;
      && PeekNext(s3) == Some(Entry(t0 + 1.0, b))
      && PopReady(s3, early) == (s3, None)
      && PopReady(s3, late).1 == Some(b)
      && PeekNext(PopReady(s3, late).0) == Some(Entry(t0 + 3.0, c))
  {
    ThreeInserts(Empty(), t0 + 5.0, a, t0 + 1.0, b, t0 + 3.0, c);
    var s3 := Insert(Insert(Insert(Empty(), t0 + 5.0, a).0, t0 + 1.0, b).0, t0 + 3.0, c).0;
    PopScenario(s3, t0, a, b, c, early, late);
  }
}
