/** The state transitions behind the application's handlers, as functions of
    the old lists, with the invariants they keep: at most one match per
    student and sport, winners that agree with the status and the players,
    and registrations with a derived category and at most three sports. */
module Rules {
  import opened Collections
  import opened Text
  import opened Roster

  // ----- Invariants -----

  /** Two matches of the same sport share no player. */
  predicate Apart(a: Match, b: Match)
  {
    a.sport != b.sport ||
    (a.p1Id != b.p1Id && a.p1Id != b.p2Id && a.p2Id != b.p1Id && a.p2Id != b.p2Id)
  }

  /** Lifetime uniqueness: every match has two different players, and no
      student plays in two matches of the same sport, whatever their status. */
  predicate OneMatchPerSport(ms: seq<Match>)
  {
    && (forall i :: 0 <= i < |ms| ==> ms[i].p1Id != ms[i].p2Id)
    && (forall i, j :: 0 <= i < j < |ms| ==> Apart(ms[i], ms[j]))
  }

  /** Read per student: under the invariant, one student's matches of one
      sport are a single position of the list. */
  lemma OneMatchPerSportMeaning(ms: seq<Match>, sport: string, id: string, i: nat, j: nat)
    requires OneMatchPerSport(ms)
    requires i < |ms| && j < |ms| && PlaysIn(ms[i], sport, id) && PlaysIn(ms[j], sport, id)
    ensures i == j
  {
  }

  /** A finished match, and only a finished one, has a winner, who is one of
      its two players. */
  predicate WinnerAgrees(m: Match)
  {
    (m.status == Finished <==> m.winnerId.Some?) &&
    (m.winnerId.Some? ==> m.winnerId.value == m.p1Id || m.winnerId.value == m.p2Id)
  }

  predicate WinnersValid(ms: seq<Match>)
  {
    forall i :: 0 <= i < |ms| ==> WinnerAgrees(ms[i])
  }

  /** A registration as `handleStudentSubmit` leaves it: the category derived
      from the class, at most three sports, none twice. */
  predicate SelectionValid(sports: seq<string>)
  {
    |sports| <= 3 && NoDuplicates(sports)
  }

  predicate RosterValid(ss: seq<Student>)
  {
    forall i :: 0 <= i < |ss| ==>
      ss[i].category == GetCategory(ss[i].classVal) && SelectionValid(ss[i].sports)
  }

  // ----- scheduleMatch -----

  /** The guard of `scheduleMatch`: a missing sport or player, or one player
      picked twice. */
  predicate Rejects(f: ScheduleForm)
  {
    f.sport == "" || f.p1Id == "" || f.p2Id == "" || f.p1Id == f.p2Id
  }

  /** The matches after `scheduleMatch` with the given id and timestamp. */
  function Schedule(ms: seq<Match>, f: ScheduleForm, id: string, timestamp: string): (r: seq<Match>)
    ensures Rejects(f) ==> r == ms
    ensures !Rejects(f) ==> |r| == |ms| + 1 && r[..|ms|] == ms
    ensures !Rejects(f) ==>
      var m := r[|ms|];
      && m.id == id && m.timestamp == timestamp
      && m.sport == f.sport && m.category == f.category
      && m.p1Id == f.p1Id && m.p2Id == f.p2Id
      && m.winnerId == None && m.status == Scheduled
  {
    if Rejects(f) then ms
    else ms + [Match(id, f.sport, f.category, f.p1Id, f.p2Id, None, Scheduled, timestamp)]
  }

  /** The schedule form after `scheduleMatch`: the picks are cleared, the
      sport and the group stay selected. */
  function AfterSchedule(f: ScheduleForm): (r: ScheduleForm)
    ensures Rejects(f) ==> r == f
    ensures !Rejects(f) ==> r.sport == f.sport && r.category == f.category && r.p1Id == "" && r.p2Id == ""
  {
    if Rejects(f) then f else f.(p1Id := "", p2Id := "")
  }

  /** The selection discipline of the two player pickers: player 1 is one of
      the offered group members and player 2 is a different one. */
  predicate Picked(ss: seq<Student>, ms: seq<Match>, f: ScheduleForm)
  {
    var offered := PlayersFor(EligiblePool(ss, ms, f.sport), f.category);
    && (exists s :: s in offered && s.id == f.p1Id)
    && (exists s :: s in offered && s.id == f.p2Id && s.id != f.p1Id)
  }

  /** Scheduling two players who are in no match of the sport keeps lifetime
      uniqueness. */
  lemma ScheduleFreePlayers(ms: seq<Match>, f: ScheduleForm, id: string, timestamp: string)
    requires OneMatchPerSport(ms)
    requires f.p1Id !in BusyIds(ms, f.sport) && f.p2Id !in BusyIds(ms, f.sport)
    ensures OneMatchPerSport(Schedule(ms, f, id, timestamp))
  {
  }

  /** Lifetime uniqueness is kept when the players come from the pickers.
      `scheduleMatch` does not check it itself. */
  lemma PickersKeepOneMatchPerSport(ss: seq<Student>, ms: seq<Match>, f: ScheduleForm, id: string, timestamp: string)
    requires OneMatchPerSport(ms)
    requires Picked(ss, ms, f)
    ensures OneMatchPerSport(Schedule(ms, f, id, timestamp))
    ensures f.p1Id != "" && f.p2Id != "" ==> |Schedule(ms, f, id, timestamp)| == |ms| + 1
  {
    var pool := EligiblePool(ss, ms, f.sport);
    var offered := PlayersFor(pool, f.category);
    var s1 :| s1 in offered && s1.id == f.p1Id;
    var s2 :| s2 in offered && s2.id == f.p2Id && s2.id != f.p1Id;
    assert f.category != "";
    var parts := SplitKey(f.category);
    assert s1 in GroupMembers(pool, parts.0, parts.1) && s2 in GroupMembers(pool, parts.0, parts.1);
    assert s1 in pool && s2 in pool;
    assert f.sport != "";
    ScheduleFreePlayers(ms, f, id, timestamp);
  }

  /** A new match is scheduled with no winner, so winners stay valid. */
  lemma ScheduleKeepsWinners(ms: seq<Match>, f: ScheduleForm, id: string, timestamp: string)
    requires WinnersValid(ms)
    ensures WinnersValid(Schedule(ms, f, id, timestamp))
  {
  }

  // ----- declareWinner -----

  /** One match after `declareWinner(matchId, w)`. */
  function Crowned(m: Match, matchId: string, w: string): Match
  {
    if m.id == matchId then m.(winnerId := Some(w), status := Finished) else m
  }

  /** `matches.map(...)` of `declareWinner`: every match with the id is
      finished with the winner, every other match is left as it was. */
  function WithWinner(ms: seq<Match>, matchId: string, w: string): (r: seq<Match>)
    ensures |r| == |ms|
    ensures forall i :: 0 <= i < |ms| && ms[i].id == matchId ==>
      r[i].status == Finished && r[i].winnerId == Some(w) &&
      r[i] == ms[i].(winnerId := r[i].winnerId, status := r[i].status)
    ensures forall i :: 0 <= i < |ms| && ms[i].id != matchId ==> r[i] == ms[i]
  {
    if |ms| == 0 then [] else [Crowned(ms[0], matchId, w)] + WithWinner(ms[1..], matchId, w)
  }

  /** Declaring the same winner again changes nothing. */
  lemma WinnerIdempotent(ms: seq<Match>, matchId: string, w: string)
    ensures WithWinner(WithWinner(ms, matchId, w), matchId, w) == WithWinner(ms, matchId, w)
  {
  }

  /** A winner touches no player: no student becomes eligible or busy. */
  lemma WinnerKeepsPool(ss: seq<Student>, ms: seq<Match>, matchId: string, w: string, sport: string)
    ensures EligiblePool(ss, WithWinner(ms, matchId, w), sport) == EligiblePool(ss, ms, sport)
  {
    var r := WithWinner(ms, matchId, w);
    forall id ensures id in BusyIds(r, sport) <==> id in BusyIds(ms, sport) {
      BusyIdsMeaning(r, sport, id);
      BusyIdsMeaning(ms, sport, id);
      if exists m :: m in r && PlaysIn(m, sport, id) {
        var m :| m in r && PlaysIn(m, sport, id);
        var i :| 0 <= i < |r| && r[i] == m;
        assert ms[i] in ms && PlaysIn(ms[i], sport, id);
      }
      if exists m :: m in ms && PlaysIn(m, sport, id) {
        var m :| m in ms && PlaysIn(m, sport, id);
        var i :| 0 <= i < |ms| && ms[i] == m;
        assert r[i] in r && PlaysIn(r[i], sport, id);
      }
    }
    assert BusyIds(r, sport) == BusyIds(ms, sport);
  }

  /** Declaring a winner keeps lifetime uniqueness. */
  lemma WinnerKeepsOneMatchPerSport(ms: seq<Match>, matchId: string, w: string)
    requires OneMatchPerSport(ms)
    ensures OneMatchPerSport(WithWinner(ms, matchId, w))
  {
  }

  /** The winner buttons of a match offer only its two players. */
  predicate OfferedWinner(ms: seq<Match>, matchId: string, w: string)
  {
    forall i :: 0 <= i < |ms| && ms[i].id == matchId ==> w == ms[i].p1Id || w == ms[i].p2Id
  }

  /** With the winner taken from the buttons, a finished match always has
      one of its players as winner, and a winner only when finished. */
  lemma WinnerFromPlayers(ms: seq<Match>, matchId: string, w: string)
    requires WinnersValid(ms)
    requires OfferedWinner(ms, matchId, w)
    ensures WinnersValid(WithWinner(ms, matchId, w))
  {
  }

  // ----- deleteMatch -----

  /** `matches.filter(m => m.id !== id)` */
  function WithoutMatch(ms: seq<Match>, id: string): (r: seq<Match>)
    ensures forall m :: m in r <==> m in ms && m.id != id
  {
    Filter(ms, (m: Match) => m.id != id)
  }

  /** Deleting a match keeps lifetime uniqueness and valid winners. */
  lemma DeleteMatchKeepsInvariants(ms: seq<Match>, id: string)
    ensures OneMatchPerSport(ms) ==> OneMatchPerSport(WithoutMatch(ms, id))
    ensures WinnersValid(ms) ==> WinnersValid(WithoutMatch(ms, id))
  {
    var p := (m: Match) => m.id != id;
    var r := WithoutMatch(ms, id);
    if OneMatchPerSport(ms) {
      FilterKeepsPairwise(ms, p, (a: Match, b: Match) => Apart(a, b));
      forall i | 0 <= i < |r| ensures r[i].p1Id != r[i].p2Id {
        assert r[i] in ms;
      }
    }
    if WinnersValid(ms) {
      forall i | 0 <= i < |r| ensures WinnerAgrees(r[i]) {
        assert r[i] in ms;
      }
    }
  }

  /** Deleting a match, finished or not, makes its players eligible for its
      sport again. */
  lemma DeleteMatchFreesPlayers(ss: seq<Student>, ms: seq<Match>, k: nat, s: Student)
    requires OneMatchPerSport(ms)
    requires k < |ms| && ms[k].sport != ""
    requires s in ss && ms[k].sport in s.sports && (s.id == ms[k].p1Id || s.id == ms[k].p2Id)
    ensures s in EligiblePool(ss, WithoutMatch(ms, ms[k].id), ms[k].sport)
  {
    var sport := ms[k].sport;
    var r := WithoutMatch(ms, ms[k].id);
    forall m | m in r ensures !PlaysIn(m, sport, s.id) {
      var i :| 0 <= i < |ms| && ms[i] == m;
      if PlaysIn(m, sport, s.id) {
        OneMatchPerSportMeaning(ms, sport, s.id, i, k);
        assert false;
      }
    }
    PoolMembers(ss, r, sport, s);
  }

  // ----- deleteStudent -----

  /** `students.filter(s => s.id !== id)` */
  function WithoutStudent(ss: seq<Student>, id: string): (r: seq<Student>)
    ensures forall s :: s in r <==> s in ss && s.id != id
  {
    Filter(ss, (s: Student) => s.id != id)
  }

  /** `matches.filter(m => m.p1Id !== id && m.p2Id !== id)` */
  function WithoutPlayer(ms: seq<Match>, id: string): (r: seq<Match>)
    ensures forall m :: m in r <==> m in ms && m.p1Id != id && m.p2Id != id
  {
    Filter(ms, (m: Match) => m.p1Id != id && m.p2Id != id)
  }

  /** After deleting a student, no match refers to them, and lifetime
      uniqueness, valid winners and valid registrations are kept. */
  lemma DeleteStudentKeepsInvariants(ss: seq<Student>, ms: seq<Match>, id: string)
    ensures forall m, sport :: m in WithoutPlayer(ms, id) ==> !PlaysIn(m, sport, id)
    ensures OneMatchPerSport(ms) ==> OneMatchPerSport(WithoutPlayer(ms, id))
    ensures WinnersValid(ms) ==> WinnersValid(WithoutPlayer(ms, id))
    ensures RosterValid(ss) ==> RosterValid(WithoutStudent(ss, id))
  {
    var r := WithoutPlayer(ms, id);
    if OneMatchPerSport(ms) {
      FilterKeepsPairwise(ms, (m: Match) => m.p1Id != id && m.p2Id != id, (a: Match, b: Match) => Apart(a, b));
      forall i | 0 <= i < |r| ensures r[i].p1Id != r[i].p2Id {
        assert r[i] in ms;
      }
    }
    if WinnersValid(ms) {
      forall i | 0 <= i < |r| ensures WinnerAgrees(r[i]) {
        assert r[i] in ms;
      }
    }
    if RosterValid(ss) {
      var t := WithoutStudent(ss, id);
      forall i | 0 <= i < |t| ensures t[i].category == GetCategory(t[i].classVal) && SelectionValid(t[i].sports) {
        assert t[i] in ss;
      }
    }
  }

  /** The deletions keep the surviving records in their order: each
      distributes over concatenation and keeps or drops a single record. */
  lemma DeletionsKeepOrder(ms: seq<Match>, ms': seq<Match>, ss: seq<Student>, ss': seq<Student>, id: string)
    ensures WithoutMatch(ms + ms', id) == WithoutMatch(ms, id) + WithoutMatch(ms', id)
    ensures WithoutPlayer(ms + ms', id) == WithoutPlayer(ms, id) + WithoutPlayer(ms', id)
    ensures WithoutStudent(ss + ss', id) == WithoutStudent(ss, id) + WithoutStudent(ss', id)
  {
    FilterAppend(ms, ms', (m: Match) => m.id != id);
    FilterAppend(ms, ms', (m: Match) => m.p1Id != id && m.p2Id != id);
    FilterAppend(ss, ss', (s: Student) => s.id != id);
  }

  // ----- toggleSportSelection -----

  /** The sports of the registration form after `toggleSportSelection`: a
      selected sport is removed, a new one is added only below three. */
  function ToggleSport(sports: seq<string>, sport: string): (r: seq<string>)
    ensures sport in sports ==> forall x :: x in r <==> x in sports && x != sport
    ensures sport !in sports && |sports| < 3 ==> r == sports + [sport]
    ensures sport !in sports && |sports| >= 3 ==> r == sports
  {
    if sport in sports then Filter(sports, (s: string) => s != sport)
    else if |sports| >= 3 then sports
    else sports + [sport]
  }

  /** A selection of at most three distinct sports stays one. */
  lemma ToggleKeepsSelection(sports: seq<string>, sport: string)
    requires SelectionValid(sports)
    ensures SelectionValid(ToggleSport(sports, sport))
  {
    if sport in sports {
      FilterKeepsPairwise(sports, (s: string) => s != sport, (a: string, b: string) => a != b);
    }
  }

  // ----- handleStudentSubmit -----

  /** The guard of `handleStudentSubmit`: a missing name, class or gender, or
      no sport. */
  predicate Incomplete(f: RegForm)
  {
    f.name == "" || f.classVal.None? || f.gender == "" || |f.sports| == 0
  }

  /** The student record the form describes, under the given id. */
  function FromForm(id: string, f: RegForm): (s: Student)
    requires f.classVal.Some?
    ensures s.id == id && s.classVal == f.classVal.value
    ensures s.category == GetCategory(s.classVal)
    ensures s.name == f.name && s.gender == f.gender && s.sports == f.sports
  {
    Student(id, f.name, f.classVal.value, f.gender, GetCategory(f.classVal.value), f.sports)
  }

  /** `students.map(s => s.id === editingId ? { ...s, ...studentData } : s)`:
      the edited student keeps id and place, every other one is untouched. */
  function ApplyEdit(ss: seq<Student>, id: string, f: RegForm): (r: seq<Student>)
    requires f.classVal.Some?
    ensures |r| == |ss|
    ensures forall i :: 0 <= i < |ss| ==> r[i].id == ss[i].id
    ensures forall i :: 0 <= i < |ss| && ss[i].id == id ==> r[i] == FromForm(id, f)
    ensures forall i :: 0 <= i < |ss| && ss[i].id != id ==> r[i] == ss[i]
  {
    if |ss| == 0 then []
    else [if ss[0].id == id then FromForm(id, f) else ss[0]] + ApplyEdit(ss[1..], id, f)
  }

  /** The test `if (editingId)`: `null` and the empty string are both falsy,
      so an edit target of `""` counts as no edit. */
  predicate Editing(editingId: Option<string>)
  {
    editingId.Some? && editingId.value != ""
  }

  /** The students after `handleStudentSubmit`: unchanged for an incomplete
      form, the edited student replaced in place, or a new one appended. */
  function Submit(ss: seq<Student>, editingId: Option<string>, f: RegForm, newId: string): (r: seq<Student>)
    ensures Incomplete(f) ==> r == ss
    ensures !Incomplete(f) && Editing(editingId) ==> r == ApplyEdit(ss, editingId.value, f)
    ensures !Incomplete(f) && !Editing(editingId) ==> r == ss + [FromForm(newId, f)]
  {
    if Incomplete(f) then ss
    else if Editing(editingId) then ApplyEdit(ss, editingId.value, f)
    else ss + [FromForm(newId, f)]
  }

  /** Every stored student keeps a category that matches its class and at
      most three distinct sports, as long as the form's selection has them. */
  lemma SubmitKeepsRoster(ss: seq<Student>, editingId: Option<string>, f: RegForm, newId: string)
    requires RosterValid(ss) && SelectionValid(f.sports)
    ensures RosterValid(Submit(ss, editingId, f, newId))
  {
  }

  /** Editing never adds, removes or reorders students: the id list stays
      the same; creating appends the new id. */
  lemma SubmitIds(ss: seq<Student>, editingId: Option<string>, f: RegForm, newId: string)
    requires !Incomplete(f)
    ensures Editing(editingId) ==> forall i :: 0 <= i < |ss| ==> Submit(ss, editingId, f, newId)[i].id == ss[i].id
    ensures Editing(editingId) ==> |Submit(ss, editingId, f, newId)| == |ss|
    ensures !Editing(editingId) ==> |Submit(ss, editingId, f, newId)| == |ss| + 1 && Submit(ss, editingId, f, newId)[|ss|].id == newId
  {
  }
}
