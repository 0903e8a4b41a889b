/** The records of the sports day (students, matches, the two working forms
    and the participant filter) and the data the scheduler derives from them:
    the category of a class, the eligible pool of a sport, its group keys and
    the players of one group. */
module Roster {
  import opened Collections
  import opened Text

  /** A registered student; `category` is stored at registration time. */
  datatype Student = Student(
    id: string,
    name: string,
    classVal: int,
    gender: string,
    category: string,
    sports: seq<string>)

  datatype Status = Scheduled | Finished

  /** A two-player match; `category` is the group key it was scheduled under. */
  datatype Match = Match(
    id: string,
    sport: string,
    category: string,
    p1Id: string,
    p2Id: string,
    winnerId: Option<string>,
    status: Status,
    timestamp: string)

  /** The scheduler's form: `""` stands for "nothing selected". */
  datatype ScheduleForm = ScheduleForm(sport: string, category: string, p1Id: string, p2Id: string)

  /** The registration form; `classVal` is `None` while the field is empty. */
  datatype RegForm = RegForm(name: string, classVal: Option<int>, gender: string, sports: seq<string>)

  /** The participant filter; `""` and `None` stand for "any". */
  datatype Filters = Filters(category: string, gender: string, classVal: Option<int>, sport: string)

  const Juniors: string := "Juniors (4-5)"
  const Middle: string := "Middle (6-7)"
  const Seniors: string := "Seniors (8-10)"
  const Unknown: string := "Unknown"

  const EmptyScheduleForm := ScheduleForm("", "", "", "")
  const EmptyRegForm := RegForm("", None, "", [])
  const NoFilters := Filters("", "", None, "")

  /** `getCategory`: the age band of a class number. */
  function GetCategory(c: int): (r: string)
    ensures r == Juniors <==> 4 <= c <= 5
    ensures r == Middle <==> 6 <= c <= 7
    ensures r == Seniors <==> 8 <= c <= 10
    ensures r == Unknown <==> c < 4 || 10 < c
  {
    if 4 <= c <= 5 then Juniors
    else if 6 <= c <= 7 then Middle
    else if 8 <= c <= 10 then Seniors
    else Unknown
  }

  /** No category name can be confused with a separator when a group key
      is split again. */
  lemma CategorySplittable(c: int)
    ensures Splittable(GetCategory(c))
  {
  }

  /** The two genders the registration form offers. */
  lemma GendersSplittable()
    ensures Splittable("Boys") && Splittable("Girls")
  {
  }

  // ----- Eligibility -----

  /** Whether `m` is a match of `sport` in which `id` plays. */
  predicate PlaysIn(m: Match, sport: string, id: string)
  {
    m.sport == sport && (m.p1Id == id || m.p2Id == id)
  }

  /** The set of busy ids of a sport, in the order `matches.forEach` fills it. */
  function BusyIds(ms: seq<Match>, sport: string): set<string>
  {
    if |ms| == 0 then {}
    else
      var last := ms[|ms| - 1];
      BusyIds(ms[..|ms| - 1], sport) + (if last.sport == sport then {last.p1Id, last.p2Id} else {})
  }

  /** An id is busy exactly when it plays in some match of the sport, whatever
      that match's status. */
  lemma {:induction false} BusyIdsMeaning(ms: seq<Match>, sport: string, id: string)
    ensures id in BusyIds(ms, sport) <==> exists m :: m in ms && PlaysIn(m, sport, id)
  {
    if |ms| > 0 {
      var init := ms[..|ms| - 1];
      BusyIdsMeaning(init, sport, id);
      assert ms == init + [ms[|ms| - 1]];
      if exists m :: m in ms && PlaysIn(m, sport, id) {
        var m :| m in ms && PlaysIn(m, sport, id);
        if m != ms[|ms| - 1] {
          assert m in init;
        }
      }
      if id in BusyIds(init, sport) {
        var m :| m in init && PlaysIn(m, sport, id);
        assert m in ms;
      } else if id in BusyIds(ms, sport) {
        assert PlaysIn(ms[|ms| - 1], sport, id);
      }
    }
  }

  /** Students of `sport` whose id is not in `busy`, in roster order. */
  function Candidates(ss: seq<Student>, sport: string, busy: set<string>): seq<Student>
  {
    Filter(ss, (s: Student) => sport in s.sports && s.id !in busy)
  }

  /** `eligiblePlayers`: nothing while no sport is selected, otherwise the
      students registered for the sport that do not play in any of its
      matches. */
  function EligiblePool(ss: seq<Student>, ms: seq<Match>, sport: string): seq<Student>
  {
    if sport == "" then [] else Candidates(ss, sport, BusyIds(ms, sport))
  }

  /** A student may be paired for `sport`: one is selected, the student is
      registered for it and plays in none of its matches. */
  predicate Eligible(s: Student, ms: seq<Match>, sport: string)
  {
    sport != "" && sport in s.sports && forall m :: m in ms ==> !PlaysIn(m, sport, s.id)
  }

  /** Pool exclusivity, in both directions. */
  lemma PoolMembers(ss: seq<Student>, ms: seq<Match>, sport: string, s: Student)
    ensures s in EligiblePool(ss, ms, sport) <==> s in ss && Eligible(s, ms, sport)
  {
    BusyIdsMeaning(ms, sport, s.id);
  }

  /** The pool keeps the roster's order: pooling a roster split in two pools
      each part. */
  lemma PoolOrder(a: seq<Student>, b: seq<Student>, ms: seq<Match>, sport: string)
    ensures EligiblePool(a + b, ms, sport) == EligiblePool(a, ms, sport) + EligiblePool(b, ms, sport)
  {
    if sport != "" {
      FilterAppend(a, b, (s: Student) => sport in s.sports && s.id !in BusyIds(ms, sport));
    }
  }

  // ----- Group keys and the group picker -----

  /** `${s.category} - ${s.gender}` */
  function GroupKey(s: Student): string
  {
    s.category + Sep + s.gender
  }

  /** The pool members of one category and gender (`gender` is `None` when
      the key had no separator, which no student matches). */
  function GroupMembers(pool: seq<Student>, cat: string, gender: Option<string>): seq<Student>
  {
    Filter(pool, (s: Student) => s.category == cat && gender == Some(s.gender))
  }

  /** `filteredPlayersForMatch`: nothing while no group is selected, otherwise
      the pool members of the category and gender the key splits into. */
  function PlayersFor(pool: seq<Student>, key: string): seq<Student>
  {
    if key == "" then [] else
      var parts := SplitKey(key);
      GroupMembers(pool, parts.0, parts.1)
  }

  /** Key round-trip for the picker: selecting the key of a category and a
      gender lists exactly the pool members with that category and gender,
      in pool order. */
  lemma PlayersForKey(pool: seq<Student>, cat: string, g: string)
    requires Splittable(cat) && Splittable(g)
    ensures PlayersFor(pool, cat + Sep + g) == GroupMembers(pool, cat, Some(g))
    ensures forall s :: s in PlayersFor(pool, cat + Sep + g) <==> s in pool && s.category == cat && s.gender == g
  {
    SplitJoin(cat, g);
  }

  /** The keys of every pool member, each student's category being a
      `GetCategory` result and each gender free of separators, split back
      into that member's own category and gender. */
  lemma KeysSplitBack(pool: seq<Student>, s: Student)
    requires s in pool
    requires s.category == GetCategory(s.classVal) && Splittable(s.gender)
    ensures SplitKey(GroupKey(s)) == (s.category, Some(s.gender))
    ensures s in PlayersFor(pool, GroupKey(s))
  {
    CategorySplittable(s.classVal);
    PlayersForKey(pool, s.category, s.gender);
  }

  // ----- Participant filter -----

  /** One student passes the participant filter: every set criterion holds. */
  predicate PassesFilters(s: Student, f: Filters)
  {
    && (f.category == "" || s.category == f.category)
    && (f.gender == "" || s.gender == f.gender)
    && (f.classVal.None? || s.classVal == f.classVal.value)
    && (f.sport == "" || f.sport in s.sports)
  }

  /** `filteredStudentsList` */
  function FilteredStudents(ss: seq<Student>, f: Filters): (r: seq<Student>)
    ensures forall s :: s in r ==> s in ss && PassesFilters(s, f)
    ensures forall s :: s in ss && PassesFilters(s, f) ==> s in r
  {
    Filter(ss, (s: Student) => PassesFilters(s, f))
  }

  /** With no criterion set, the filter lists every student, in order. */
  lemma NoFiltersListsAll(ss: seq<Student>)
    ensures FilteredStudents(ss, NoFilters) == ss
  {
    FilterKeepsAll(ss, (s: Student) => PassesFilters(s, NoFilters));
  }
}
