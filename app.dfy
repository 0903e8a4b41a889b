/** The `App` component's state as an object: the two collections, the two
    working forms, the edit target and the participant filter, with one
    method per handler and the scheduler's derived data recomputed from the
    current state on demand. */
module AppState {
  import opened Collections
  import opened Text
  import opened Roster
  import opened Rules

  class App {
    var students: seq<Student>
    var matches: seq<Match>
    var regForm: RegForm
    var editingId: Option<string>
    var filters: Filters
    var scheduleForm: ScheduleForm

    /** Both collections start as loaded from storage; the forms start empty. */
    constructor (savedStudents: seq<Student>, savedMatches: seq<Match>)
      ensures students == savedStudents && matches == savedMatches
      ensures regForm == EmptyRegForm && editingId == None
      ensures filters == NoFilters && scheduleForm == EmptyScheduleForm
    {
      students := savedStudents;
      matches := savedMatches;
      regForm := EmptyRegForm;
      editingId := None;
      filters := NoFilters;
      scheduleForm := EmptyScheduleForm;
    }

    /** The registration invariant every handler keeps. */
    ghost predicate RegistrationValid()
      reads this
    {
      RosterValid(students) && SelectionValid(regForm.sports)
    }

    // ----- Derived data -----

    function Pool(): seq<Student>
      reads this
    {
      EligiblePool(students, matches, scheduleForm.sport)
    }

    /** `eligiblePlayers`: the busy ids of the selected sport are collected
        match by match, then the roster is filtered. */
    method EligiblePlayers() returns (pool: seq<Student>)
      ensures pool == Pool()
      ensures forall s :: s in pool <==> s in students && Eligible(s, matches, scheduleForm.sport)
      ensures scheduleForm.sport == "" ==> pool == []
    {
      var sport := scheduleForm.sport;
      if sport == "" {
        return [];
      }
      var busy: set<string> := {};
      var i := 0;
      while i < |matches|
        invariant 0 <= i <= |matches|
        invariant busy == BusyIds(matches[..i], sport)
      {
        var m := matches[i];
        assert matches[..i + 1][..i] == matches[..i];
        if m.sport == sport {
          busy := busy + {m.p1Id};
          busy := busy + {m.p2Id};
        }
        i := i + 1;
      }
      assert matches[..i] == matches;
      pool := Candidates(students, sport, busy);
      forall s ensures s in pool <==> s in students && Eligible(s, matches, sport) {
        PoolMembers(students, matches, sport, s);
      }
    }

    /** `availableCategoriesForSport`: the distinct group keys of the pool,
        sorted. */
    method AvailableCategoriesForSport() returns (keys: seq<string>)
      ensures StrictlySorted(keys)
      ensures forall k :: k in keys ==> exists s :: s in Pool() && k == GroupKey(s)
      ensures forall s :: s in Pool() ==> GroupKey(s) in keys
      ensures keys == [] <==> Pool() == []
      ensures scheduleForm.sport == "" ==> keys == []
    {
      if scheduleForm.sport == "" {
        return [];
      }
      var pool := EligiblePlayers();
      var cats: set<string> := {};
      for i := 0 to |pool|
        invariant forall k :: k in cats <==> exists j :: 0 <= j < i && k == GroupKey(pool[j])
      {
        cats := cats + {GroupKey(pool[i])};
      }
      keys := SortedList(cats);
      if pool != [] {
        assert GroupKey(pool[0]) in cats;
      }
      if keys != [] {
        assert keys[0] in cats;
      }
      forall k | k in keys ensures exists s :: s in pool && k == GroupKey(s) {
        var j :| 0 <= j < |pool| && k == GroupKey(pool[j]);
      }
      forall s | s in pool ensures GroupKey(s) in keys {
        var j :| 0 <= j < |pool| && pool[j] == s;
      }
    }

    /** `filteredPlayersForMatch`: the pool members of the selected group. */
    function PlayersForMatch(): (r: seq<Student>)
      reads this
      ensures scheduleForm.category == "" ==> r == []
      ensures forall s :: s in r ==> s in Pool()
    {
      PlayersFor(Pool(), scheduleForm.category)
    }

    /** `filteredStudentsList` */
    function FilteredStudentsList(): (r: seq<Student>)
      reads this
      ensures forall s :: s in r <==> s in students && PassesFilters(s, filters)
    {
      FilteredStudents(students, filters)
    }

    // ----- Schedule form -----

    /** Choosing a sport clears the group and both picks. */
    method SelectSport(sport: string)
      modifies this`scheduleForm
      ensures scheduleForm == ScheduleForm(sport, "", "", "")
    {
      scheduleForm := ScheduleForm(sport, "", "", "");
    }

    /** Choosing a group clears both picks. */
    method SelectCategory(key: string)
      modifies this`scheduleForm
      ensures scheduleForm == old(scheduleForm).(category := key, p1Id := "", p2Id := "")
    {
      scheduleForm := scheduleForm.(category := key, p1Id := "", p2Id := "");
    }

    method SelectPlayer1(id: string)
      modifies this`scheduleForm
      ensures scheduleForm == old(scheduleForm).(p1Id := id)
    {
      scheduleForm := scheduleForm.(p1Id := id);
    }

    method SelectPlayer2(id: string)
      modifies this`scheduleForm
      ensures scheduleForm == old(scheduleForm).(p2Id := id)
    {
      scheduleForm := scheduleForm.(p2Id := id);
    }

    // ----- Match handlers -----

    /** `scheduleMatch`, with the clock's id and timestamp as parameters. */
    method ScheduleMatch(id: string, timestamp: string)
      modifies this`matches, this`scheduleForm
      ensures matches == Schedule(old(matches), old(scheduleForm), id, timestamp)
      ensures scheduleForm == AfterSchedule(old(scheduleForm))
      ensures old(OneMatchPerSport(matches) && Picked(students, matches, scheduleForm)) ==> OneMatchPerSport(matches)
      ensures old(WinnersValid(matches)) ==> WinnersValid(matches)
    {
      if Rejects(scheduleForm) {
        return;
      }
      if OneMatchPerSport(matches) && Picked(students, matches, scheduleForm) {
        PickersKeepOneMatchPerSport(students, matches, scheduleForm, id, timestamp);
      }
      if WinnersValid(matches) {
        ScheduleKeepsWinners(matches, scheduleForm, id, timestamp);
      }
      var newMatch := Match(id, scheduleForm.sport, scheduleForm.category,
                            scheduleForm.p1Id, scheduleForm.p2Id, None, Scheduled, timestamp);
      matches := matches + [newMatch];
      scheduleForm := scheduleForm.(p1Id := "", p2Id := "");
    }

    /** `declareWinner` */
    method DeclareWinner(matchId: string, winnerId: string)
      modifies this`matches
      ensures matches == WithWinner(old(matches), matchId, winnerId)
      ensures old(OneMatchPerSport(matches)) ==> OneMatchPerSport(matches)
      ensures old(WinnersValid(matches) && OfferedWinner(matches, matchId, winnerId)) ==> WinnersValid(matches)
      ensures Pool() == old(Pool())
    {
      WinnerKeepsPool(students, matches, matchId, winnerId, scheduleForm.sport);
      if OneMatchPerSport(matches) {
        WinnerKeepsOneMatchPerSport(matches, matchId, winnerId);
      }
      if WinnersValid(matches) && OfferedWinner(matches, matchId, winnerId) {
        WinnerFromPlayers(matches, matchId, winnerId);
      }
      matches := WithWinner(matches, matchId, winnerId);
    }

    /** `deleteMatch` */
    method DeleteMatch(id: string)
      modifies this`matches
      ensures matches == WithoutMatch(old(matches), id)
      ensures old(OneMatchPerSport(matches)) ==> OneMatchPerSport(matches)
      ensures old(WinnersValid(matches)) ==> WinnersValid(matches)
    {
      DeleteMatchKeepsInvariants(matches, id);
      matches := WithoutMatch(matches, id);
    }

    // ----- Registration handlers -----

    /** `deleteStudent`, once the operator has confirmed: the student and
        every match they play in go. */
    method DeleteStudent(id: string)
      modifies this`students, this`matches
      ensures students == WithoutStudent(old(students), id)
      ensures matches == WithoutPlayer(old(matches), id)
      ensures old(OneMatchPerSport(matches)) ==> OneMatchPerSport(matches)
      ensures old(WinnersValid(matches)) ==> WinnersValid(matches)
      ensures old(RegistrationValid()) ==> RegistrationValid()
    {
      DeleteStudentKeepsInvariants(students, matches, id);
      students := WithoutStudent(students, id);
      matches := WithoutPlayer(matches, id);
    }

    /** `toggleSportSelection` */
    method ToggleSportSelection(sport: string)
      modifies this`regForm
      ensures regForm == old(regForm).(sports := ToggleSport(old(regForm.sports), sport))
      ensures old(RegistrationValid()) ==> RegistrationValid()
    {
      if SelectionValid(regForm.sports) {
        ToggleKeepsSelection(regForm.sports, sport);
      }
      regForm := regForm.(sports := ToggleSport(regForm.sports, sport));
    }

    /** `startEdit`: loads a listed student into the form. A class of 0 is
        falsy in the source and so reads as an empty class field. */
    method StartEdit(s: Student)
      modifies this`editingId, this`regForm
      ensures editingId == Some(s.id)
      ensures regForm == RegForm(s.name, if s.classVal == 0 then None else Some(s.classVal), s.gender, s.sports)
      ensures old(RosterValid(students)) && s in students ==> RegistrationValid()
    {
      editingId := Some(s.id);
      regForm := RegForm(s.name, if s.classVal == 0 then None else Some(s.classVal), s.gender, s.sports);
    }

    /** `cancelEdit` */
    method CancelEdit()
      modifies this`editingId, this`regForm
      ensures editingId == None && regForm == EmptyRegForm
    {
      editingId := None;
      regForm := EmptyRegForm;
    }

    /** `handleStudentSubmit`, with the clock's id of a new student as a
        parameter: creates or edits a student and clears the form, unless the
        form is incomplete. Only an edit ends the edit; a creation leaves
        `editingId` as it was, which matters for a falsy id `""`. */
    method HandleStudentSubmit(newId: string)
      modifies this`students, this`editingId, this`regForm
      ensures students == Submit(old(students), old(editingId), old(regForm), newId)
      ensures Incomplete(old(regForm)) ==> editingId == old(editingId) && regForm == old(regForm)
      ensures !Incomplete(old(regForm)) ==> regForm == EmptyRegForm
      ensures !Incomplete(old(regForm)) && Editing(old(editingId)) ==> editingId == None
      ensures !Incomplete(old(regForm)) && !Editing(old(editingId)) ==> editingId == old(editingId)
      ensures old(RegistrationValid()) ==> RegistrationValid()
    {
      if Incomplete(regForm) {
        return;
      }
      if RegistrationValid() {
        SubmitKeepsRoster(students, editingId, regForm, newId);
      }
      if Editing(editingId) {
        students := ApplyEdit(students, editingId.value, regForm);
        editingId := None;
      } else {
        students := students + [FromForm(newId, regForm)];
      }
      regForm := EmptyRegForm;
    }

    /** `resetFilters` */
    method ResetFilters()
      modifies this`filters
      ensures filters == NoFilters
    {
      filters := NoFilters;
    }
  }
}
