/** Classification of a user CSV (domain-imex `user_import.rs`, `security.rs`). A CSV is
    its header and its records; a record the reader cannot parse is `None`. */
module UserCsv {
  import opened Common
  import opened Text

  const MAX_ROWS: nat := 10000
  const MAX_USERNAME_LEN: nat := 20
  const MAX_DISPLAY_NAME_LEN: nat := 100

  type Record = seq<string>

  /** Unicode lowercasing, the whitespace test and the byte length of a character. */
  datatype Unicode = Unicode(lower: string -> string, ws: char -> bool, width: char -> nat)

  datatype Status = Valid | Duplicate | Error

  datatype Warning =
    | TooManyRows
    | UnreadableRow
    | UsernameRequired
    | UsernameTooLong
    | DisplayNameTooLong
    | RoleForbidden(role: string)
    | RoleNeedsRoot(role: string)
    | InvalidRole(role: string)
    | InvalidCampus(text: string)
    | InvalidGrade(text: string)
    | UsernameExists
    | RepeatedInCsv

  datatype Row = Row(
    username: string, role: string, campus: int, grade: Option<int>, displayName: string, email: Option<string>,
    status: Status, warning: Option<Warning>)

  function Blank(w: Warning): Row { Row("", "", 0, None, "", None, Error, Some(w)) }

  /** The first header that reads `name` once trimmed. */
  function Position(u: Unicode, headers: Record, name: string, from: nat): Option<nat>
    requires from <= |headers|
    decreases |headers| - from
  {
    if from == |headers| then None
    else if TrimStart(u.ws, TrimEnd(u.ws, headers[from])) == name then Some(from)
    else Position(u, headers, name, from + 1)
  }

  function Column(u: Unicode, headers: Record, rec: Record, name: string): string {
    var i := Position(u, headers, name, 0);
    if i.Some? && i.value < |rec| then rec[i.value] else ""
  }

  predicate IsFormulaLead(c: char) { c in {'=', '+', '-', '@', '\t'} }

  function StripLead(s: string): string {
    if s != "" && IsFormulaLead(s[0]) then StripLead(s[1..]) else s
  }

  function SanitizeCell(u: Unicode, s: string): string { StripLead(TrimStart(u.ws, s)) }

  function Cell(u: Unicode, headers: Record, rec: Record, name: string): string {
    SanitizeCell(u, Column(u, headers, rec, name))
  }

  /** The canonical name of a role, read case-insensitively. */
  function CanonicalRole(u: Unicode, role: string): Option<string> {
    var r := u.lower(role);
    if r == "root" then Some("root")
    else if r == "campusadmin" then Some("campusadmin")
    else if r == "gradeadmin" || r == "organizationadmin" || r == "orgadmin" then Some("gradeadmin")
    else if r == "teacher" then Some("teacher")
    else if r == "teachingassistant" || r == "ta" then Some("teachingassistant")
    else if r == "student" then Some("student")
    else None
  }

  function RoleError(u: Unicode, role: string, allowRoot: bool): Option<Warning> {
    var c := CanonicalRole(u, role);
    if c.None? then Some(InvalidRole(role))
    else if c.value == "root" then Some(RoleForbidden("root"))
    else if (c.value == "campusadmin" || c.value == "gradeadmin") && !allowRoot then Some(RoleNeedsRoot(c.value))
    else None
  }

  const I64_BOUND: nat := 0x8000_0000_0000_0000

  function Optional(s: string): Option<string> { if s == "" then None else Some(s) }

  /** The field checks on one record: an `Error` row if any fails, otherwise a row
      marked `Valid` for now. */
  function CheckFields(u: Unicode, headers: Record, allowRoot: bool, record: Option<Record>): Row {
    if record.None? then Blank(UnreadableRow)
    else
      var rec := record.value;
      var username, role := Cell(u, headers, rec, "username"), Cell(u, headers, rec, "role");
      var campusText, gradeText := Cell(u, headers, rec, "campus_id"), Cell(u, headers, rec, "grade_id");
      var displayName, email := Cell(u, headers, rec, "display_name"), Optional(Cell(u, headers, rec, "email"));
      var failed := Row(username, role, 0, None, displayName, email, Error, None);
      if username == "" then failed.(warning := Some(UsernameRequired))
      else if ByteLen(u.width, username) > MAX_USERNAME_LEN then failed.(warning := Some(UsernameTooLong))
      else if ByteLen(u.width, displayName) > MAX_DISPLAY_NAME_LEN then failed.(warning := Some(DisplayNameTooLong))
      else if RoleError(u, role, allowRoot).Some? then failed.(warning := RoleError(u, role, allowRoot))
      else
        var named := failed.(role := CanonicalRole(u, role).value);
        var campus := ParseInt(campusText, I64_BOUND);
        if campus.None? then named.(warning := Some(InvalidCampus(campusText)))
        else
          var placed := named.(campus := campus.value);
          var grade := ParseInt(gradeText, I64_BOUND);
          if gradeText != "" && grade.None? then placed.(warning := Some(InvalidGrade(gradeText)))
          else placed.(grade := if gradeText == "" then None else grade, status := Valid)
  }

  lemma {:induction false} StrippedLead(s: string)
    ensures StripLead(s) == "" || !IsFormulaLead(StripLead(s)[0])
  {
    if s != "" && IsFormulaLead(s[0]) {
      StrippedLead(s[1..]);
    }
  }

  // ----------------------------------------------------- what a passing row holds

  /** Column `name` of a record is where the first header reads so once trimmed. */
  lemma {:induction false} PositionExactly(u: Unicode, headers: Record, name: string, from: nat)
    requires from <= |headers|
    ensures var r := Position(u, headers, name, from);
            && (r.Some? ==> from <= r.value < |headers| && TrimStart(u.ws, TrimEnd(u.ws, headers[r.value])) == name)
            && (forall i :: from <= i < (if r.Some? then r.value else |headers|) ==>
                  TrimStart(u.ws, TrimEnd(u.ws, headers[i])) != name)
    decreases |headers| - from
  {
    if from < |headers| && TrimStart(u.ws, TrimEnd(u.ws, headers[from])) != name {
      PositionExactly(u, headers, name, from + 1);
    }
  }

  lemma {:induction false} StripLeadExactly(s: string) returns (lead: string)
    ensures s == lead + StripLead(s) && forall c :: c in lead ==> c in {'=', '+', '-', '@', '\t'}
  {
    lead := "";
    if s != "" && IsFormulaLead(s[0]) {
      var t := StripLeadExactly(s[1..]);
      lead := [s[0]] + t;
    }
  }

  /** A cell loses its leading whitespace and then its leading formula characters. */
  lemma SanitizedExactly(u: Unicode, s: string) returns (space: string, lead: string)
    ensures s == space + lead + SanitizeCell(u, s) && (forall c :: c in space ==> u.ws(c))
    ensures forall c :: c in lead ==> c in {'=', '+', '-', '@', '\t'}
    ensures lead + SanitizeCell(u, s) != "" ==> !u.ws((lead + SanitizeCell(u, s))[0])
    ensures SanitizeCell(u, s) == "" || !IsFormulaLead(SanitizeCell(u, s)[0])
  {
    space := TrimStartExactly(u.ws, s);
    lead := StripLeadExactly(TrimStart(u.ws, s));
    StrippedLead(TrimStart(u.ws, s));
  }

  /** The role that a text names, in lowercase. */
  predicate NamesRole(text: string, role: string) {
    || (text == role && role in ["root", "campusadmin", "gradeadmin", "teacher", "teachingassistant", "student"])
    || ((text == "organizationadmin" || text == "orgadmin") && role == "gradeadmin")
    || (text == "ta" && role == "teachingassistant")
  }

  lemma CanonicalRoleExactly(u: Unicode, role: string)
    ensures forall r :: CanonicalRole(u, role) == Some(r) <==> NamesRole(u.lower(role), r)
  {
    if CanonicalRole(u, role).Some? {
      assert NamesRole(u.lower(role), CanonicalRole(u, role).value);
    }
  }

  /** A row passes exactly if its cells are in order; it then holds just what its cells
      say. */
  lemma PassingRowExactly(u: Unicode, headers: Record, allowRoot: bool, rec: Record)
    ensures var row := CheckFields(u, headers, allowRoot, Some(rec));
            var username, display := Cell(u, headers, rec, "username"), Cell(u, headers, rec, "display_name");
            var role, email := u.lower(Cell(u, headers, rec, "role")), Cell(u, headers, rec, "email");
            var campus, grade := Cell(u, headers, rec, "campus_id"), Cell(u, headers, rec, "grade_id");
            && (Passes(row) <==>
                  && username != "" && ByteLen(u.width, username) <= 20 && ByteLen(u.width, display) <= 100
                  && (exists r :: r in RolesAllowed(allowRoot) && NamesRole(role, r))
                  && ParseInt(campus, I64_BOUND).Some? && (grade == "" || ParseInt(grade, I64_BOUND).Some?))
            && (Passes(row) ==>
                  && row.username == username && row.displayName == display && NamesRole(role, row.role)
                  && Some(row.campus) == ParseInt(campus, I64_BOUND) && row.email == Optional(email)
                  && row.grade == (if grade == "" then None else ParseInt(grade, I64_BOUND)) && row.warning == None)
  {
    var text := Cell(u, headers, rec, "role");
    hide Cell, ByteLen, ParseInt, NamesRole;
    CanonicalRoleExactly(u, text);
    RoleErrorExactly(u, text, allowRoot);
    hide CanonicalRole, RoleError;
  }

  lemma RoleErrorExactly(u: Unicode, text: string, allowRoot: bool)
    ensures RoleError(u, text, allowRoot).None? <==>
              exists r :: r in RolesAllowed(allowRoot) && NamesRole(u.lower(text), r)
    ensures RoleError(u, text, allowRoot).None? ==> CanonicalRole(u, text).Some?
  {
    CanonicalRoleExactly(u, text);
    if RoleError(u, text, allowRoot).None? {
      var r := CanonicalRole(u, text).value;
      assert NamesRole(u.lower(text), r);
      RoleAllowed(u, text, allowRoot);
    } else {
      forall r | r in RolesAllowed(allowRoot) ensures !NamesRole(u.lower(text), r) {
        assert NamesRole(u.lower(text), r) <==> CanonicalRole(u, text) == Some(r);
      }
    }
  }

  function RolesAllowed(allowRoot: bool): seq<string> {
    ["student", "teacher", "teachingassistant"] + if allowRoot then ["campusadmin", "gradeadmin"] else []
  }

  /** Whatever the file says, a passing row has a bounded, non-empty username that is
      no spreadsheet formula, is never a root, and is an administrator only if the
      caller may appoint one. */
  lemma PassingRowIsSafe(u: Unicode, headers: Record, allowRoot: bool, record: Option<Record>)
    ensures var row := CheckFields(u, headers, allowRoot, record);
            Passes(row) ==>
              && row.username != "" && ByteLen(u.width, row.username) <= MAX_USERNAME_LEN
              && !IsFormulaLead(row.username[0]) && row.role in RolesAllowed(allowRoot)
              && 0 - I64_BOUND <= row.campus < I64_BOUND
  {
    hide CanonicalRole, RoleError, ParseInt, ByteLen, TrimStart, StripLead, Column, IsFormulaLead;
    if record.Some? {
      StrippedLead(TrimStart(u.ws, Column(u, headers, record.value, "username")));
      RoleAllowed(u, Cell(u, headers, record.value, "role"), allowRoot);
      ParsedInRange(Cell(u, headers, record.value, "campus_id"), I64_BOUND);
    }
  }

  lemma RoleAllowed(u: Unicode, role: string, allowRoot: bool)
    ensures RoleError(u, role, allowRoot).None? ==>
              CanonicalRole(u, role).Some? && CanonicalRole(u, role).value in RolesAllowed(allowRoot)
  {
  }

  lemma ParsedInRange(s: string, bound: nat)
    ensures ParseInt(s, bound).Some? ==> 0 - bound <= ParseInt(s, bound).value < bound
  {
  }

  predicate Passes(row: Row) { row.status == Valid }

  /** How many of the checked rows passed with this username. */
  function Occurrences(rows: seq<Row>, name: string): nat {
    if rows == [] then 0
    else
      var last := rows[|rows| - 1];
      Occurrences(rows[..|rows| - 1], name) + if Passes(last) && last.username == name then 1 else 0
  }

  function Checked(u: Unicode, headers: Record, allowRoot: bool, records: seq<Option<Record>>): (rows: seq<Row>)
    ensures |rows| == |records|
    ensures forall i :: 0 <= i < |records| ==> rows[i] == CheckFields(u, headers, allowRoot, records[i])
  {
    seq(|records|, i requires 0 <= i < |records| => CheckFields(u, headers, allowRoot, records[i]))
  }

  /** The final row: existing usernames first, then usernames repeated in the CSV. */
  function Classified(row: Row, skip: set<string>, occurrences: nat): Row {
    if !Passes(row) then row
    else if row.username in skip then row.(status := Duplicate, warning := Some(UsernameExists))
    else if occurrences > 1 then row.(status := Duplicate, warning := Some(RepeatedInCsv))
    else row
  }

  function Kept(records: seq<Option<Record>>): seq<Option<Record>> {
    if |records| > MAX_ROWS then records[..MAX_ROWS] else records
  }

  /** Every row of the result: the classified records, and the notice if there were
      too many. */
  function ParsedRows(u: Unicode, headers: Record, records: seq<Option<Record>>, skip: set<string>, allowRoot: bool)
    : seq<Row>
  {
    var checked := Checked(u, headers, allowRoot, Kept(records));
    seq(|checked|, i requires 0 <= i < |checked| =>
      Classified(checked[i], skip, Occurrences(checked, checked[i].username)))
    + if |records| > MAX_ROWS then [Blank(TooManyRows)] else []
  }

  predicate HasHeader(u: Unicode, headers: Record, name: string) { Position(u, headers, name, 0).Some? }

  const REQUIRED_HEADERS: seq<string> := ["username", "role", "campus_id", "display_name"]

  function CountOf(counts: map<string, nat>, name: string): nat { if name in counts then counts[name] else 0 }

  /** The first pass classifies against the database and counts usernames; the second
      turns every repeated username into a duplicate. */
  method ParseUserCsv(u: Unicode, headers: Record, records: seq<Option<Record>>, skip: set<string>, allowRoot: bool)
    returns (r: Result<seq<Row>, string>)
    ensures r.Ok? <==> forall h :: h in REQUIRED_HEADERS ==> HasHeader(u, headers, h)
    ensures r.Ok? ==>
              && r.value == ParsedRows(u, headers, records, skip, allowRoot)
              && |r.value| == if |records| > MAX_ROWS then MAX_ROWS + 1 else |records|
  {
    hide CheckFields, HasHeader;
    for k := 0 to |REQUIRED_HEADERS|
      invariant forall j :: 0 <= j < k ==> HasHeader(u, headers, REQUIRED_HEADERS[j])
    {
      if !HasHeader(u, headers, REQUIRED_HEADERS[k]) {
        return Err(REQUIRED_HEADERS[k]);
      }
    }
    ghost var checked := Checked(u, headers, allowRoot, Kept(records));
    var rows, counts := FirstPass(u, headers, records, skip, allowRoot);
    var i := 0;
    ghost var first := rows;
    while i < |rows|
      invariant 0 <= i <= |rows| == |first|
      invariant forall j :: i <= j < |rows| ==> rows[j] == first[j]
      invariant forall j :: 0 <= j < i && j < |checked| ==>
                rows[j] == Classified(checked[j], skip, Occurrences(checked, checked[j].username))
      invariant |records| > MAX_ROWS ==> rows[MAX_ROWS] == Blank(TooManyRows)
    {
      if rows[i].status == Valid && CountOf(counts, rows[i].username) > 1 {
        rows := rows[i := rows[i].(status := Duplicate, warning := Some(RepeatedInCsv))];
      }
      i := i + 1;
    }
    assert rows == ParsedRows(u, headers, records, skip, allowRoot);
    return Ok(rows);
  }

  lemma OccursNever(rows: seq<Row>, name: string)
    ensures Occurrences(rows[..0], name) == 0
  {
  }

  lemma OccursStep(rows: seq<Row>, k: nat, name: string)
    requires k < |rows|
    ensures Occurrences(rows[..k + 1], name) ==
            Occurrences(rows[..k], name) + if Passes(rows[k]) && rows[k].username == name then 1 else 0
  {
    assert rows[..k + 1][..k] == rows[..k];
  }

  method FirstPass(u: Unicode, headers: Record, records: seq<Option<Record>>, skip: set<string>, allowRoot: bool)
    returns (rows: seq<Row>, counts: map<string, nat>)
    ensures var checked := Checked(u, headers, allowRoot, Kept(records));
            && |rows| == |checked| + (if |records| > MAX_ROWS then 1 else 0)
            && (forall i :: 0 <= i < |checked| ==> rows[i] == Classified(checked[i], skip, 1))
            && (|records| > MAX_ROWS ==> rows[MAX_ROWS] == Blank(TooManyRows))
            && (forall name :: CountOf(counts, name) == Occurrences(checked, name))
  {
    hide CheckFields, Occurrences;
    rows, counts := [], map[];
    ghost var checked := Checked(u, headers, allowRoot, Kept(records));
    forall name ensures CountOf(counts, name) == Occurrences(checked[..0], name) {
      OccursNever(checked, name);
    }
    for k := 0 to |records|
      invariant k <= MAX_ROWS && |rows| == k
      invariant forall i :: 0 <= i < k ==> rows[i] == Classified(checked[i], skip, 1)
      invariant forall name :: CountOf(counts, name) == Occurrences(checked[..k], name)
    {
      if k >= MAX_ROWS {
        rows := rows + [Blank(TooManyRows)];
        assert checked[..k] == checked;
        return;
      }
      var row := CheckFields(u, headers, allowRoot, records[k]);
      ghost var before := counts;
      if Passes(row) {
        counts := counts[row.username := CountOf(counts, row.username) + 1];
        if row.username in skip {
          row := row.(status := Duplicate, warning := Some(UsernameExists));
        }
      }
      rows := rows + [row];
      forall name ensures CountOf(counts, name) == Occurrences(checked[..k + 1], name) {
        OccursStep(checked, k, name);
        assert CountOf(before, name) == Occurrences(checked[..k], name);
      }
    }
    assert checked[..|records|] == checked;
  }

  // ------------------------------------------------------------------- results

  lemma {:induction false} OccursOnce(rows: seq<Row>, i: nat)
    requires i < |rows| && Passes(rows[i])
    ensures Occurrences(rows, rows[i].username) >= 1
  {
    if i < |rows| - 1 {
      OccursOnce(rows[..|rows| - 1], i);
    }
  }

  lemma {:induction false} OccursTwice(rows: seq<Row>, i: nat, j: nat)
    requires i < j < |rows| && Passes(rows[i]) && Passes(rows[j]) && rows[i].username == rows[j].username
    ensures Occurrences(rows, rows[i].username) >= 2
  {
    if j < |rows| - 1 {
      OccursTwice(rows[..|rows| - 1], i, j);
    } else {
      OccursOnce(rows[..|rows| - 1], i);
    }
  }

  lemma {:induction false} OccursMore(rows: seq<Row>, i: nat) returns (j: nat)
    requires i < |rows| && Passes(rows[i]) && Occurrences(rows, rows[i].username) > 1
    ensures j < |rows| && j != i && Passes(rows[j]) && rows[j].username == rows[i].username
  {
    var n := |rows| - 1;
    if i < n && Passes(rows[n]) && rows[n].username == rows[i].username {
      j := n;
    } else if i < n {
      j := OccursMore(rows[..n], i);
    } else {
      j := FindOccurrence(rows[..n], rows[i].username);
    }
  }

  lemma {:induction false} FindOccurrence(rows: seq<Row>, name: string) returns (j: nat)
    requires Occurrences(rows, name) > 0
    ensures j < |rows| && Passes(rows[j]) && rows[j].username == name
  {
    var n := |rows| - 1;
    if Passes(rows[n]) && rows[n].username == name {
      j := n;
    } else {
      j := FindOccurrence(rows[..n], name);
    }
  }

  /** A row ends up valid exactly when it passes the field checks, its username is
      new to the database, and no other passing row has the same username. */
  lemma ValidExactly(checked: seq<Row>, skip: set<string>, i: nat)
    requires i < |checked|
    ensures Classified(checked[i], skip, Occurrences(checked, checked[i].username)).status == Valid <==>
              && Passes(checked[i]) && checked[i].username !in skip
              && forall j :: 0 <= j < |checked| && j != i && Passes(checked[j]) ==>
                    checked[j].username != checked[i].username
  {
    if Passes(checked[i]) {
      if Occurrences(checked, checked[i].username) > 1 {
        var j := OccursMore(checked, i);
      } else {
        forall j | 0 <= j < |checked| && j != i && Passes(checked[j])
          ensures checked[j].username != checked[i].username
        {
          if checked[j].username == checked[i].username {
            OccursTwice(checked, if i < j then i else j, if i < j then j else i);
          }
        }
      }
    }
  }

  /** The users handed on for creation. */
  function ToCreate(rows: seq<Row>): seq<Row> {
    if rows == [] then []
    else if rows[|rows| - 1].status == Valid then ToCreate(rows[..|rows| - 1]) + [rows[|rows| - 1]]
    else ToCreate(rows[..|rows| - 1])
  }

  lemma {:induction false} ToCreateFrom(rows: seq<Row>, x: Row)
    requires x in ToCreate(rows)
    ensures exists i :: 0 <= i < |rows| && rows[i] == x && rows[i].status == Valid
  {
    var n := |rows| - 1;
    if rows[n].status == Valid && rows[n] == x {
    } else {
      ToCreateFrom(rows[..n], x);
      var i :| 0 <= i < n && rows[..n][i] == x && rows[..n][i].status == Valid;
      assert rows[i] == x;
    }
  }

  ghost predicate ClassifiedUpTo(checked: seq<Row>, skip: set<string>, rows: seq<Row>, n: nat) {
    n <= |rows| && n <= |checked|
    && forall i :: 0 <= i < n ==> rows[i] == Classified(checked[i], skip, Occurrences(checked, checked[i].username))
  }

  lemma ValidRowIsUnique(checked: seq<Row>, skip: set<string>, rows: seq<Row>, n: nat, x: Row)
    requires n > 0 && ClassifiedUpTo(checked, skip, rows, n)
    requires rows[n - 1].status == Valid && x in ToCreate(rows[..n - 1])
    ensures x.username != rows[n - 1].username && rows[n - 1].username !in skip
  {
    hide Occurrences;
    ValidExactly(checked, skip, n - 1);
    ToCreateFrom(rows[..n - 1], x);
    var i :| 0 <= i < n - 1 && rows[..n - 1][i] == x && rows[..n - 1][i].status == Valid;
    assert rows[i] == x && Passes(checked[i]) && checked[i].username == x.username;
  }

  lemma {:induction false} ClassifiedUsersDistinct(checked: seq<Row>, skip: set<string>, rows: seq<Row>, n: nat)
    requires ClassifiedUpTo(checked, skip, rows, n)
    ensures DistinctUsers(ToCreate(rows[..n]), skip)
  {
    hide Occurrences;
    if n > 0 {
      ClassifiedUsersDistinct(checked, skip, rows, n - 1);
      assert rows[..n][..n - 1] == rows[..n - 1];
      var front, last := ToCreate(rows[..n - 1]), rows[n - 1];
      if last.status == Valid {
        ValidExactly(checked, skip, n - 1);
        hide Classified;
        forall a | 0 <= a < |front| ensures front[a].username != last.username {
          ValidRowIsUnique(checked, skip, rows, n, front[a]);
        }
      }
    }
  }

  /** No two share a username, and none has a known one. */
  ghost predicate DistinctUsers(users: seq<Row>, skip: set<string>) {
    && (forall a, b :: 0 <= a < b < |users| ==> users[a].username != users[b].username)
    && (forall a :: 0 <= a < |users| ==> users[a].username !in skip)
  }

  /** Of the whole result, no two users to be created share a username, and none
      exists already. */
  lemma CreatedUsersDistinct(u: Unicode, headers: Record, records: seq<Option<Record>>, skip: set<string>,
      allowRoot: bool)
    ensures DistinctUsers(ToCreate(ParsedRows(u, headers, records, skip, allowRoot)), skip)
  {
    hide Occurrences, Classified, DistinctUsers, CheckFields;
    var checked := Checked(u, headers, allowRoot, Kept(records));
    var rows := ParsedRows(u, headers, records, skip, allowRoot);
    ClassifiedUsersDistinct(checked, skip, rows, |checked|);
    if |records| > MAX_ROWS {
      assert rows[|rows| - 1].status == Error && rows[..|rows| - 1] == rows[..|checked|];
    } else {
      assert rows[..|checked|] == rows;
    }
  }

  // -------------------------------------------------------- a repeated username

  const SampleUnicode: Unicode := Unicode((s: string) => s, (c: char) => c == ' ', (c: char) => 1)
  const SampleHeaders: Record := ["username", "role", "campus_id", "display_name"]
  const SampleRecord: Record := ["ada", "student", "1", "Ada"]

  lemma SampleCells()
    ensures Cell(SampleUnicode, SampleHeaders, SampleRecord, "username") == "ada"
    ensures Cell(SampleUnicode, SampleHeaders, SampleRecord, "role") == "student"
    ensures Cell(SampleUnicode, SampleHeaders, SampleRecord, "campus_id") == "1"
    ensures Cell(SampleUnicode, SampleHeaders, SampleRecord, "display_name") == "Ada"
    ensures Cell(SampleUnicode, SampleHeaders, SampleRecord, "grade_id") == ""
    ensures Cell(SampleUnicode, SampleHeaders, SampleRecord, "email") == ""
  {
  }

  lemma SampleFields()
    ensures ByteLen(SampleUnicode.width, "ada") == 3 && ByteLen(SampleUnicode.width, "Ada") == 3
    ensures CanonicalRole(SampleUnicode, "student") == Some("student")
    ensures ParseInt("1", I64_BOUND) == Some(1)
  {
    assert "ada"[1..] == "da" && "da"[1..] == "a" && "a"[1..] == "" && "Ada"[1..] == "da";
    assert "1"[..0] == "" && ValueOf("1") == 1;
  }

  /** The sample record passes every check. */
  lemma SampleChecks()
    ensures CheckFields(SampleUnicode, SampleHeaders, false, Some(SampleRecord)) ==
            Row("ada", "student", 1, None, "Ada", None, Valid, None)
  {
    SampleCells();
    SampleFields();
    hide Cell, ByteLen, CanonicalRole, ParseInt;
  }

  lemma OccursInBoth(row: Row)
    requires Passes(row)
    ensures Occurrences([row, row], row.username) == 2
  {
    assert [row, row][..1] == [row] && [row][..0] == [];
    assert Occurrences([row], row.username) == 1;
  }

  /** In a CSV that holds one record twice, the first occurrence is a duplicate as
      well: neither row is valid. */
  lemma FirstOccurrenceIsDuplicate()
    ensures var rows := ParsedRows(SampleUnicode, SampleHeaders, [Some(SampleRecord), Some(SampleRecord)], {}, false);
            |rows| == 2 && forall i :: 0 <= i < 2 ==>
                rows[i].username == "ada" && rows[i].warning == Some(RepeatedInCsv)
  {
    hide CheckFields, Occurrences;
    var row := Row("ada", "student", 1, None, "Ada", None, Valid, None);
    SampleChecks();
    OccursInBoth(row);
    assert Checked(SampleUnicode, SampleHeaders, false, [Some(SampleRecord), Some(SampleRecord)]) == [row, row];
  }
}
