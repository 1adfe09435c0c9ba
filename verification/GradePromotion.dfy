/** Moving a campus to a new academic year (domain-classes `service.rs`,
    `promote_grades`). The whole call is one transaction. */
module GradePromotion {
  import opened Common
  import opened Text

  datatype Grade = Grade(campus: int, name: string, yearLevel: int, academicYear: string, isActive: bool)

  /** Grade identifiers come from a sequence; a user belongs to at most one grade. */
  datatype Db = Db(grades: map<int, Grade>, users: map<nat, Option<int>>, nextId: int)

  ghost predicate Valid(db: Db) {
    && (forall g :: g in db.grades ==> g < db.nextId)
    && (forall u :: u in db.users && db.users[u].Some? ==> db.users[u].value in db.grades)
  }

  function PromoteName(lower: string -> string, name: string, level: int): string {
    if name == "高一" then "高二"
    else if name == "高二" then "高三"
    else if "grade " <= lower(name) then "Grade " + Decimal(level)
    else if "year " <= lower(name) then "Year " + Decimal(level)
    else name
  }

  /** A row with the same campus, name and year blocks an insert. */
  predicate Taken(db: Db, campus: int, name: string, year: string) {
    exists g :: g in db.grades
      && db.grades[g].campus == campus && db.grades[g].name == name && db.grades[g].academicYear == year
  }

  function NewGrade(lower: string -> string, g: Grade, campus: int, year: string): Grade {
    Grade(campus, PromoteName(lower, g.name, g.yearLevel + 1), g.yearLevel + 1, year, true)
  }

  /** `name` comes after `before` for a grade of this level: the next of the two Chinese
      names that have one, the level after `Grade` or `Year`, or the same name. */
  ghost predicate Renamed(lower: string -> string, before: string, level: int, name: string) {
    if before == "高一" then name == "高二"
    else if before == "高二" then name == "高三"
    else if "grade " <= lower(before) then "Grade " <= name && Reads(name[6..], level)
    else if "year " <= lower(before) then "Year " <= name && Reads(name[5..], level)
    else name == before
  }

  /** The text is that number. */
  ghost predicate Reads(text: string, n: int) {
    forall bound: nat :: -n <= bound && n < bound ==> ParseInt(text, bound) == Some(n)
  }

  lemma DecimalReads(n: int)
    ensures Reads(Decimal(n), n)
  {
    forall bound: nat | -n <= bound && n < bound ensures ParseInt(Decimal(n), bound) == Some(n) {
      DecimalParses(n, bound);
    }
  }

  /** The successor of a grade: one level up, active, on this campus and in this year. */
  lemma NewGradeExactly(lower: string -> string, g: Grade, campus: int, year: string)
    ensures var n := NewGrade(lower, g, campus, year);
            && n.yearLevel == g.yearLevel + 1 && n.campus == campus && n.academicYear == year && n.isActive
            && Renamed(lower, g.name, n.yearLevel, n.name)
  {
    var digits := Decimal(g.yearLevel + 1);
    DecimalReads(g.yearLevel + 1);
    hide Reads;
    assert ("Grade " + digits)[6..] == digits && ("Grade " + digits)[..6] == "Grade ";
    assert ("Year " + digits)[5..] == digits && ("Year " + digits)[..5] == "Year ";
  }

  function MoveUsers(users: map<nat, Option<int>>, from: int, to: int): map<nat, Option<int>> {
    map u | u in users :: if users[u] == Some(from) then Some(to) else users[u]
  }

  /** Promotes one grade, unless its successor already exists. */
  function PromoteOne(lower: string -> string, db: Db, src: int, campus: int, year: string): (Db, Option<int>)
    requires src in db.grades
  {
    var next := NewGrade(lower, db.grades[src], campus, year);
    if Taken(db, campus, next.name, year) then (db, None)
    else
      var id := db.nextId;
      (Db(db.grades[id := next][src := db.grades[src].(isActive := false)], MoveUsers(db.users, src, id), id + 1),
       Some(id))
  }

  function PromoteAll(lower: string -> string, db: Db, current: seq<int>, campus: int, year: string): (r: (Db,
      seq<int>))
    requires forall g :: g in current ==> g in db.grades
    ensures db.grades.Keys <= r.0.grades.Keys && r.0.users.Keys == db.users.Keys
  {
    if current == [] then (db, [])
    else
      var last := current[|current| - 1];
      assert last in current;
      assert forall g :: g in current[..|current| - 1] ==> g in current;
      var (before, ids) := PromoteAll(lower, db, current[..|current| - 1], campus, year);
      var (after, id) := PromoteOne(lower, before, last, campus, year);
      (after, if id.Some? then ids + [id.value] else ids)
  }

  /** The grades a call works on: active, of this campus and year, by level. */
  ghost predicate Selects(db: Db, campus: int, year: string, current: seq<int>) {
    && (forall i, j :: 0 <= i < j < |current| ==> current[i] != current[j])
    && (forall g :: g in current <==>
          g in db.grades && db.grades[g].campus == campus && db.grades[g].academicYear == year && db.grades[g].isActive)
    && (forall i, j :: 0 <= i < j < |current| ==>
          && current[i] in db.grades && current[j] in db.grades
          && db.grades[current[i]].yearLevel <= db.grades[current[j]].yearLevel)
  }

  class GradeStore {
    var grades: map<int, Grade>
    var users: map<nat, Option<int>>
    var nextId: int

    function Contents(): Db
      reads this
    {
      Db(grades, users, nextId)
    }

    /** `current` is the result of the selecting query. */
    method PromoteGrades(lower: string -> string, campus: int, oldYear: string, newYear: string, current: seq<int>)
      returns (newGrades: seq<int>)
      requires Selects(Contents(), campus, oldYear, current)
      modifies this
      ensures (Contents(), newGrades) == PromoteAll(lower, old(Contents()), current, campus, newYear)
    {
      hide NewGrade, Taken, MoveUsers;
      newGrades := [];
      for k := 0 to |current|
        invariant forall g :: g in current[..k] ==> g in old(grades)
        invariant (Contents(), newGrades) == PromoteAll(lower, old(Contents()), current[..k], campus, newYear)
        invariant old(grades).Keys <= grades.Keys
      {
        var oldGrade := current[k];
        assert oldGrade in current && current[..k + 1] == current[..k] + [oldGrade];
        assert current[..k + 1][..k] == current[..k];
        var next := NewGrade(lower, grades[oldGrade], campus, newYear);
        if !Taken(Contents(), campus, next.name, newYear) {
          var id := nextId;
          nextId := nextId + 1;
          users := MoveUsers(users, oldGrade, id);
          grades := grades[id := next][oldGrade := grades[oldGrade].(isActive := false)];
          newGrades := newGrades + [id];
        }
      }
      assert current[..|current|] == current;
    }
  }

  // --------------------------------------------------------- what a call does

  ghost predicate IsTarget(target: map<int, int>, g: int) {
    exists h :: h in target && target[h] == g
  }

  /** Successors are fresh grades, one for each promoted grade of `done`. */
  ghost predicate TargetsFresh(db: Db, db': Db, done: seq<int>, target: map<int, int>) {
    && db'.nextId >= db.nextId
    && (forall g :: g in target ==>
          g in done && g in db.grades && db.nextId <= target[g] < db'.nextId && target[g] !in db.grades)
    && (forall g, h :: g in target && h in target && target[g] == target[h] ==> g == h)
  }

  /** Promoted grades are deactivated and their successors added; nothing else. */
  ghost predicate GradesFollow(lower: string -> string, db: Db, db': Db, campus: int, year: string, target: map<int,
      int>) {
    && (forall g :: g in db.grades ==>
          g in db'.grades && db'.grades[g] == if g in target then db.grades[g].(isActive := false) else db.grades[g])
    && (forall g :: g in target ==>
          && g in db.grades && target[g] in db'.grades
          && db'.grades[target[g]] == NewGrade(lower, db.grades[g], campus, year))
    && (forall g :: g in db'.grades ==> g in db.grades || IsTarget(target, g))
  }

  /** A grade of `done` without successor was blocked by an existing row. */
  ghost predicate OthersBlocked(lower: string -> string, db: Db, db': Db, done: seq<int>, campus: int, year: string,
      target: map<int, int>) {
    forall g :: g in done && g !in target ==>
      g in db.grades && Taken(db', campus, NewGrade(lower, db.grades[g], campus, year).name, year)
  }

  function NewHome(target: map<int, int>, home: Option<int>): Option<int> {
    if home.Some? && home.value in target then Some(target[home.value]) else home
  }

  ghost predicate UsersFollow(db: Db, db': Db, target: map<int, int>) {
    && db'.users.Keys == db.users.Keys
    && (forall u :: u in db.users ==> db'.users[u] == NewHome(target, db.users[u]))
  }

  /** How the tables after a call relate to those before. */
  ghost predicate Shape(lower: string -> string, db: Db, db': Db, done: seq<int>, campus: int, year: string,
      target: map<int, int>) {
    && TargetsFresh(db, db', done, target)
    && GradesFollow(lower, db, db', campus, year, target)
    && OthersBlocked(lower, db, db', done, campus, year, target)
    && UsersFollow(db, db', target)
  }

  /** The names the selected grades would take. */
  function NextName(lower: string -> string, db: Db, g: int): string
    requires g in db.grades
  {
    PromoteName(lower, db.grades[g].name, db.grades[g].yearLevel + 1)
  }

  /** A grade of `done` is promoted exactly if no grade of the campus had its next name
      in that year, and no grade promoted before it in this call took the name. */
  ghost predicate Chosen(lower: string -> string, db: Db, done: seq<int>, campus: int, year: string,
      target: map<int, int>) {
    forall k :: 0 <= k < |done| && done[k] in db.grades ==>
      (done[k] in target <==>
         && (forall h :: h in db.grades && db.grades[h].campus == campus && db.grades[h].academicYear == year ==>
               db.grades[h].name != NextName(lower, db, done[k]))
         && (forall j :: 0 <= j < k && done[j] in target && done[j] in db.grades ==>
               NextName(lower, db, done[j]) != NextName(lower, db, done[k])))
  }

  lemma TakenExactly(lower: string -> string, db: Db, db': Db, done: seq<int>, campus: int, year: string,
      target: map<int, int>, name: string)
    requires TargetsFresh(db, db', done, target) && GradesFollow(lower, db, db', campus, year, target)
    ensures Taken(db', campus, name, year) <==>
              || (exists h :: h in db.grades && db.grades[h].campus == campus && db.grades[h].academicYear == year
                    && db.grades[h].name == name)
              || (exists g :: g in target && g in db.grades && NextName(lower, db, g) == name)
  {
    if h :| h in db.grades && db.grades[h].campus == campus && db.grades[h].academicYear == year
            && db.grades[h].name == name {
      assert h in db'.grades && db'.grades[h].name == name;
    }
    if g :| g in target && g in db.grades && NextName(lower, db, g) == name {
      assert db'.grades[target[g]].name == name;
    }
  }

  lemma ChosenStep(lower: string -> string, db: Db, db': Db, done: seq<int>, campus: int, year: string,
      target: map<int, int>, src: int, target': map<int, int>)
    requires Shape(lower, db, db', done, campus, year, target) && Chosen(lower, db, done, campus, year, target)
    requires src in db.grades && src !in done
    requires (forall g :: g in db.grades && g != src ==> (g in target' <==> g in target))
    requires src in target' <==> !Taken(db', campus, NextName(lower, db, src), year)
    ensures Chosen(lower, db, done + [src], campus, year, target')
  {
    var all, n := done + [src], |done|;
    TakenExactly(lower, db, db', done, campus, year, target, NextName(lower, db, src));
    hide Taken, NextName, GradesFollow, OthersBlocked, UsersFollow;
    forall k | 0 <= k < |all| && all[k] in db.grades
      ensures all[k] in target' <==>
         && (forall h :: h in db.grades && db.grades[h].campus == campus && db.grades[h].academicYear == year ==>
               db.grades[h].name != NextName(lower, db, all[k]))
         && (forall j :: 0 <= j < k && all[j] in target' && all[j] in db.grades ==>
               NextName(lower, db, all[j]) != NextName(lower, db, all[k]))
    {
      if k < n {
        assert all[k] == done[k] && all[k] in done && forall j :: 0 <= j < k ==> all[j] == done[j] && done[j] in done;
      } else {
        assert forall g :: g in target <==> exists j :: 0 <= j < n && done[j] == g && g in target;
        assert forall j :: 0 <= j < n ==> all[j] == done[j] && done[j] in done;
      }
    }
  }

  lemma TakenPersists(lower: string -> string, db: Db, src: int, campus: int, year: string, name: string, c: int,
      y: string)
    requires Valid(db) && src in db.grades && Taken(db, c, name, y)
    ensures Taken(PromoteOne(lower, db, src, campus, year).0, c, name, y)
  {
    var db' := PromoteOne(lower, db, src, campus, year).0;
    var g :| g in db.grades && db.grades[g].campus == c && db.grades[g].name == name && db.grades[g].academicYear == y;
    assert g in db'.grades && db'.grades[g].name == name;
  }

  lemma PromoteOneValid(lower: string -> string, db: Db, src: int, campus: int, year: string)
    requires Valid(db) && src in db.grades
    ensures Valid(PromoteOne(lower, db, src, campus, year).0)
  {
  }

  lemma ShapeStart(lower: string -> string, db: Db, campus: int, year: string)
    ensures Shape(lower, db, db, [], campus, year, map[])
  {
  }

  lemma ShapeBlocked(lower: string -> string, db: Db, db': Db, done: seq<int>, campus: int, year: string,
      target: map<int, int>, src: int)
    requires Shape(lower, db, db', done, campus, year, target) && src in db.grades && src !in done
    requires Taken(db', campus, NewGrade(lower, db.grades[src], campus, year).name, year)
    ensures Shape(lower, db, db', done + [src], campus, year, target)
  {
  }

  lemma PromotedGrades(lower: string -> string, db: Db, db': Db, done: seq<int>, campus: int, year: string,
      target: map<int, int>, src: int, db'': Db)
    requires Valid(db) && Valid(db') && TargetsFresh(db, db', done, target)
    requires GradesFollow(lower, db, db', campus, year, target)
    requires src in db.grades && src !in done
    requires var next := NewGrade(lower, db.grades[src], campus, year);
             db''.grades == db'.grades[db'.nextId := next][src := db.grades[src].(isActive := false)]
    ensures GradesFollow(lower, db, db'', campus, year, target[src := db'.nextId])
  {
    hide NewGrade;
    var target' := target[src := db'.nextId];
    forall g | g in db''.grades ensures g in db.grades || IsTarget(target', g) {
      if g == db'.nextId {
        assert target'[src] == g;
      } else if IsTarget(target, g) {
        var h :| h in target && target[h] == g;
        assert target'[h] == g;
      }
    }
  }

  lemma PromotedTargets(db: Db, db': Db, done: seq<int>, target: map<int, int>, src: int, db'': Db)
    requires Valid(db) && TargetsFresh(db, db', done, target)
    requires src in db.grades && src !in done && db''.nextId == db'.nextId + 1
    ensures TargetsFresh(db, db'', done + [src], target[src := db'.nextId])
  {
  }

  lemma PromotedUsers(db: Db, db': Db, done: seq<int>, target: map<int, int>, src: int, db'': Db)
    requires Valid(db) && TargetsFresh(db, db', done, target)
    requires UsersFollow(db, db', target) && src in db.grades && src !in done
    requires db''.users == MoveUsers(db'.users, src, db'.nextId)
    ensures UsersFollow(db, db'', target[src := db'.nextId])
  {
    forall u | u in db.users ensures db''.users[u] == NewHome(target[src := db'.nextId], db.users[u]) {
      if db.users[u].Some? {
        var x: int := db.users[u].value;
        assert db.users[u] == Some(x);
      }
    }
  }

  lemma ShapePromoted(lower: string -> string, db: Db, db': Db, done: seq<int>, campus: int, year: string,
      target: map<int, int>, src: int, db'': Db)
    requires Valid(db) && Valid(db')
    requires Shape(lower, db, db', done, campus, year, target) && src in db.grades && src !in done
    requires src in db'.grades && db'.grades[src] == db.grades[src]
    requires !Taken(db', campus, NewGrade(lower, db.grades[src], campus, year).name, year)
    requires db'' == PromoteOne(lower, db', src, campus, year).0
    ensures Shape(lower, db, db'', done + [src], campus, year, target[src := db'.nextId])
  {
    hide TargetsFresh, GradesFollow, UsersFollow, Valid, Taken, NewGrade, MoveUsers;
    PromotedGrades(lower, db, db', done, campus, year, target, src, db'');
    PromotedTargets(db, db', done, target, src, db'');
    PromotedUsers(db, db', done, target, src, db'');
    var target' := target[src := db'.nextId];
    forall g | g in done + [src] && g !in target'
      ensures g in db.grades && Taken(db'', campus, NewGrade(lower, db.grades[g], campus, year).name, year)
    {
      TakenPersists(lower, db', src, campus, year, NewGrade(lower, db.grades[g], campus, year).name, campus, year);
    }
  }

  lemma {:induction false} PromotionShape(lower: string -> string, db: Db, current: seq<int>, campus: int,
      year: string)
    returns (target: map<int, int>)
    requires Valid(db) && (forall g :: g in current ==> g in db.grades)
    requires forall i, j :: 0 <= i < j < |current| ==> current[i] != current[j]
    ensures Shape(lower, db, PromoteAll(lower, db, current, campus, year).0, current, campus, year, target)
    ensures Valid(PromoteAll(lower, db, current, campus, year).0)
    ensures Chosen(lower, db, current, campus, year, target)
  {
    hide Shape, Taken, NewGrade, Valid, MoveUsers, PromoteOne, Chosen;
    if current == [] {
      target := map[];
      ShapeStart(lower, db, campus, year);
      NoneChosen(lower, db, campus, year);
    } else {
      var front, src := current[..|current| - 1], current[|current| - 1];
      assert current == front + [src] && src in current;
      assert forall g :: g in front ==> g in current;
      var t := PromotionShape(lower, db, front, campus, year);
      var db' := PromoteAll(lower, db, front, campus, year).0;
      SourceUnchanged(lower, db, db', front, campus, year, t, src);
      PromoteOneValid(lower, db', src, campus, year);
      TargetsWereDone(lower, db, db', front, campus, year, t, src);
      NextNameOf(lower, db, src, campus, year);
      if Taken(db', campus, NewGrade(lower, db.grades[src], campus, year).name, year) {
        target := t;
        BlockedStep(lower, db', src, campus, year);
        ShapeBlocked(lower, db, db', front, campus, year, t, src);
      } else {
        target := t[src := db'.nextId];
        ShapePromoted(lower, db, db', front, campus, year, t, src, PromoteOne(lower, db', src, campus, year).0);
      }
      ChosenStep(lower, db, db', front, campus, year, t, src, target);
    }
  }

  lemma NoneChosen(lower: string -> string, db: Db, campus: int, year: string)
    ensures Chosen(lower, db, [], campus, year, map[])
  {
  }

  lemma TargetsWereDone(lower: string -> string, db: Db, db': Db, done: seq<int>, campus: int, year: string,
      target: map<int, int>, src: int)
    requires Shape(lower, db, db', done, campus, year, target) && src !in done
    ensures src !in target
  {
  }

  lemma NextNameOf(lower: string -> string, db: Db, src: int, campus: int, year: string)
    requires src in db.grades
    ensures NewGrade(lower, db.grades[src], campus, year).name == NextName(lower, db, src)
  {
  }

  lemma BlockedStep(lower: string -> string, db: Db, src: int, campus: int, year: string)
    requires src in db.grades && Taken(db, campus, NewGrade(lower, db.grades[src], campus, year).name, year)
    ensures PromoteOne(lower, db, src, campus, year).0 == db
  {
  }

  lemma SourceUnchanged(lower: string -> string, db: Db, db': Db, done: seq<int>, campus: int, year: string,
      target: map<int, int>, src: int)
    requires Shape(lower, db, db', done, campus, year, target) && src in db.grades && src !in done
    ensures src in db'.grades && db'.grades[src] == db.grades[src]
  {
  }

  // ------------------------------------------------------------------ results

  /** Every user keeps their grade or moves to a grade made by this call, one level
      up, in the new year; no user is lost or moved twice. */
  lemma UsersConserved(lower: string -> string, db: Db, current: seq<int>, campus: int, oldYear: string,
      newYear: string, u: nat)
    requires Valid(db) && Selects(db, campus, oldYear, current) && u in db.users
    ensures var db' := PromoteAll(lower, db, current, campus, newYear).0;
            && db'.users.Keys == db.users.Keys
            && (db'.users[u] != db.users[u] ==>
                  && db.users[u].Some? && db'.users[u].Some?
                  && db'.users[u].value !in db.grades && db'.users[u].value in db'.grades
                  && var g, g' := db.grades[db.users[u].value], db'.grades[db'.users[u].value];
                     && g'.yearLevel == g.yearLevel + 1 && g'.campus == campus && g'.academicYear == newYear
                     && g'.isActive && Renamed(lower, g.name, g'.yearLevel, g'.name))
  {
    hide PromoteAll, NewGrade, Taken, Renamed;
    forall g | g in db.grades {
      NewGradeExactly(lower, db.grades[g], campus, newYear);
    }
    var target := PromotionShape(lower, db, current, campus, newYear);
    if db.users[u].Some? {
      var x: int := db.users[u].value;
      assert db.users[u] == Some(x);
    }
  }

  /** Classmates stay together and different grades are never merged. */
  lemma GradesNeverMerge(lower: string -> string, db: Db, current: seq<int>, campus: int, oldYear: string,
      newYear: string, u: nat, v: nat)
    requires Valid(db) && Selects(db, campus, oldYear, current) && u in db.users && v in db.users
    ensures var db' := PromoteAll(lower, db, current, campus, newYear).0;
            u in db'.users && v in db'.users && (db.users[u] == db.users[v] <==> db'.users[u] == db'.users[v])
  {
    hide PromoteAll, NewGrade, Taken;
    var target := PromotionShape(lower, db, current, campus, newYear);
    if db.users[u].Some? && db.users[v].Some? {
      var x: int, y: int := db.users[u].value, db.users[v].value;
      assert db.users[u] == Some(x) && db.users[v] == Some(y);
    }
  }

  /** A grade that the call deactivated holds nobody any more. */
  lemma DeactivatedGradesAreEmpty(lower: string -> string, db: Db, current: seq<int>, campus: int, oldYear: string,
      newYear: string, g: int, u: nat)
    requires Valid(db) && Selects(db, campus, oldYear, current)
    requires g in db.grades && db.grades[g].isActive && u in db.users
    ensures var db' := PromoteAll(lower, db, current, campus, newYear).0;
            g in db'.grades && u in db'.users && (!db'.grades[g].isActive ==> db'.users[u] != Some(g))
  {
    hide PromoteAll, NewGrade, Taken;
    var target := PromotionShape(lower, db, current, campus, newYear);
    if db.users[u].Some? {
      var x: int := db.users[u].value;
      assert db.users[u] == Some(x);
    }
  }

  lemma {:induction false} AllBlocked(lower: string -> string, db: Db, current: seq<int>, campus: int, year: string)
    requires forall g :: g in current ==>
              g in db.grades && Taken(db, campus, NewGrade(lower, db.grades[g], campus, year).name, year)
    ensures PromoteAll(lower, db, current, campus, year) == (db, [])
  {
    hide Taken, NewGrade;
    if current != [] {
      var front := current[..|current| - 1];
      assert current[|current| - 1] in current && forall g :: g in front ==> g in current;
      AllBlocked(lower, db, front, campus, year);
    }
  }

  lemma SelectedAgainWasBlocked(lower: string -> string, db: Db, db': Db, current: seq<int>, again: seq<int>,
      campus: int, oldYear: string, newYear: string,
                                target: map<int, int>, g: int)
    requires oldYear != newYear && Selects(db, campus, oldYear, current) && Selects(db', campus, oldYear, again)
    requires Shape(lower, db, db', current, campus, newYear, target) && g in again
    ensures g in db.grades && g in db'.grades && db'.grades[g] == db.grades[g] && g in current && g !in target
  {
  }

  /** Doing the same promotion again, with different years, changes nothing. */
  lemma RepeatChangesNothing(lower: string -> string, db: Db, current: seq<int>, again: seq<int>, campus: int,
      oldYear: string, newYear: string)
    requires Valid(db) && oldYear != newYear && Selects(db, campus, oldYear, current)
    requires Selects(PromoteAll(lower, db, current, campus, newYear).0, campus, oldYear, again)
    ensures var db' := PromoteAll(lower, db, current, campus, newYear).0;
            PromoteAll(lower, db', again, campus, newYear) == (db', [])
  {
    hide Taken, PromoteAll, NewGrade;
    var db' := PromoteAll(lower, db, current, campus, newYear).0;
    var target := PromotionShape(lower, db, current, campus, newYear);
    forall g | g in again
      ensures g in db'.grades && Taken(db', campus, NewGrade(lower, db'.grades[g], campus, newYear).name, newYear)
    {
      SelectedAgainWasBlocked(lower, db, db', current, again, campus, oldYear, newYear, target, g);
    }
    AllBlocked(lower, db', again, campus, newYear);
  }
}
