/**
 * The four tables of the 4Ps database and the effect of every INSERT, UPDATE and DELETE the
 * application issues. The SQL engine is not part of the model: each statement is a map operation.
 * Keys: `user_id`, `program_id`, the (`user_id`, `program_id`) pair of `participation`, and
 * `attendance_id`. The user table also keeps `email` unique.
 */
module Schema {
  import opened Text

  /**
   * `amount_received`, a Java `double`. The model only needs to tell the `-1.0` sentinel that
   * the input helpers return apart from every other value, which is kept as its bit pattern.
   */
  datatype Amount = MinusOne | Other(bits: DoubleBits)

  /** The bit pattern of a `double` other than -1.0 (whose pattern is `0xBFF0_0000_0000_0000`). */
  type DoubleBits = b: bv64 | b != 0xBFF0_0000_0000_0000

  datatype User = User(name: string, gender: string, yearLevel: string, email: string, password: string)
  datatype Program = Program(name: string, description: string)
  datatype Participation = Participation(meetings: int, amount: Amount)
  datatype Attendance = Attendance(userId: int, programId: int, date: string)

  datatype Tables = Tables(
    users: map<int, User>,
    programs: map<int, Program>,
    participation: map<(int, int), Participation>,
    attendance: map<int, Attendance>)

  const Empty := Tables(map[], map[], map[], map[])

  /** A value a Java `int` can hold. */
  predicate IsInt32(n: int) { MinInt32 <= n <= MaxInt32 }

  /** Every key column holds Java `int` values, as the `int` parameters that wrote them. */
  ghost predicate KeysInt32(t: Tables)
  {
    && (forall id :: id in t.users ==> IsInt32(id))
    && (forall id :: id in t.programs ==> IsInt32(id))
    && (forall k :: k in t.participation ==> IsInt32(k.0) && IsInt32(k.1))
    && (forall id :: id in t.attendance ==> IsInt32(id))
  }

  /** `SELECT * FROM user WHERE email = ?` finds a row. */
  predicate EmailRegistered(users: map<int, User>, email: string)
  {
    exists id | id in users :: users[id].email == email
  }

  /** The `email` column is unique. */
  ghost predicate UniqueEmails(users: map<int, User>)
  {
    forall a, b :: a in users && b in users && users[a].email == users[b].email ==> a == b
  }

  /** A positional statement parameter (`setObject` argument). */
  datatype Value = IntVal(i: int) | TextVal(s: string) | AmountVal(a: Amount)

  /** Every data-changing statement the application prepares, with its arguments. */
  datatype Statement =
    | InsertUser(userId: int, user: User)
    | InsertProgram(programId: int, program: Program)
    | InsertParticipation(userId: int, programId: int, row: Participation)
    | InsertAttendance(attendanceId: int, attendance: Attendance)
    | UpdateProgram(programId: int, name: string, description: string)
    | UpdateParticipation(userId: int, programId: int, meetings: int, amount: Amount)
    | DeleteProgram(programId: int)
    | DeleteParticipation(userId: int, programId: int)
    | DeleteAttendance(attendanceId: int)
  {
    predicate IsInsert() {
      InsertUser? || InsertProgram? || InsertParticipation? || InsertAttendance?
    }
    predicate IsUpdate() { UpdateProgram? || UpdateParticipation? }

    /** The key arguments are Java `int`s. */
    predicate KeyInt32()
    {
      match this
      case InsertUser(id, _) => IsInt32(id)
      case InsertProgram(id, _) => IsInt32(id)
      case InsertParticipation(u, p, _) => IsInt32(u) && IsInt32(p)
      case InsertAttendance(id, _) => IsInt32(id)
      case UpdateProgram(id, _, _) => IsInt32(id)
      case UpdateParticipation(u, p, _, _) => IsInt32(u) && IsInt32(p)
      case DeleteProgram(id) => IsInt32(id)
      case DeleteParticipation(u, p) => IsInt32(u) && IsInt32(p)
      case DeleteAttendance(id) => IsInt32(id)
    }
  }

  /** The SQL text the application prepares for each statement. */
  function Sql(st: Statement): string
  {
    Verb(st) + Clause(st)
  }

  /** The keyword the SQL text starts with. */
  function Verb(st: Statement): string
  {
    if st.IsInsert() then "INSERT" else if st.IsUpdate() then "UPDATE" else "DELETE"
  }

  /** The SQL text after its leading keyword. */
  function Clause(st: Statement): string
  {
    match st
    case InsertUser(_, _) => InsertUserClause
    case InsertProgram(_, _) => InsertProgramClause
    case InsertParticipation(_, _, _) => InsertParticipationClause
    case InsertAttendance(_, _) => InsertAttendanceClause
    case UpdateProgram(_, _, _) => UpdateProgramClause
    case UpdateParticipation(_, _, _, _) => UpdateParticipationClause
    case DeleteProgram(_) => DeleteProgramClause
    case DeleteParticipation(_, _) => DeleteParticipationClause
    case DeleteAttendance(_) => DeleteAttendanceClause
  }

  const InsertUserClause := " INTO user(user_id, name, gender, year_level, email, password) VALUES (?,?,?,?,?,?)"
  const InsertProgramClause := " INTO program(program_id, program_name, description) VALUES (?,?,?)"
  const InsertParticipationClause :=
    " INTO participation(user_id, program_id, meetings_attended, amount_received) VALUES (?,?,?,?)"
  const InsertAttendanceClause := " INTO attendance(attendance_id, user_id, program_id, meeting_date) VALUES (?,?,?,?)"
  const UpdateProgramClause := " program SET program_name = ?, description = ? WHERE program_id = ?"
  const UpdateParticipationClause :=
    " participation SET meetings_attended = ?, amount_received = ? WHERE user_id = ? AND program_id = ?"
  const DeleteProgramClause := " FROM program WHERE program_id = ?"
  const DeleteParticipationClause := " FROM participation WHERE user_id = ? AND program_id = ?"
  const DeleteAttendanceClause := " FROM attendance WHERE attendance_id = ?"

  /** The arguments passed after the SQL text, in the order the application passes them. */
  function Params(st: Statement): seq<Value>
  {
    match st
    case InsertUser(id, u) =>
      [IntVal(id), TextVal(u.name), TextVal(u.gender), TextVal(u.yearLevel), TextVal(u.email), TextVal(u.password)]
    case InsertProgram(id, p) => [IntVal(id), TextVal(p.name), TextVal(p.description)]
    case InsertParticipation(u, p, row) => [IntVal(u), IntVal(p), IntVal(row.meetings), AmountVal(row.amount)]
    case InsertAttendance(id, a) => [IntVal(id), IntVal(a.userId), IntVal(a.programId), TextVal(a.date)]
    case UpdateProgram(id, n, d) => [TextVal(n), TextVal(d), IntVal(id)]
    case UpdateParticipation(u, p, m, a) => [IntVal(m), AmountVal(a), IntVal(u), IntVal(p)]
    case DeleteProgram(id) => [IntVal(id)]
    case DeleteParticipation(u, p) => [IntVal(u), IntVal(p)]
    case DeleteAttendance(id) => [IntVal(id)]
  }

  /** What the engine does with a statement: the new tables and the affected row count, or a rejection. */
  datatype Effect = Applied(tables: Tables, rows: nat) | Rejected(column: UniqueColumn)

  /** The unique columns (and column pairs) an insert can collide on. */
  datatype UniqueColumn = UserId | UserEmail | ProgramId | ParticipationKey | AttendanceId

  function ColumnName(c: UniqueColumn): string
  {
    match c
    case UserId => UserIdColumn
    case UserEmail => UserEmailColumn
    case ProgramId => ProgramIdColumn
    case ParticipationKey => ParticipationKeyColumns
    case AttendanceId => AttendanceIdColumn
  }

  const UserIdColumn := "user.user_id"
  const UserEmailColumn := "user.email"
  const ProgramIdColumn := "program.program_id"
  const ParticipationKeyColumns := ParticipationUserColumn + ", " + ParticipationProgramColumn
  const ParticipationUserColumn := "participation.user_id"
  const ParticipationProgramColumn := "participation.program_id"
  const AttendanceIdColumn := "attendance.attendance_id"

  const UniqueViolationText := "UNIQUE constraint failed"

  /**
   * The engine's message for a uniqueness violation on `column`, as this model assumes it: the
   * SQLite text alone, without any prefix the driver may add.
   */
  function UniqueViolation(c: UniqueColumn): string
  {
    UniqueViolationText + (": " + ColumnName(c))
  }

  /**
   * The engine's effect. An insert whose key (or, for a user, whose email) is already present is
   * rejected; an update or delete of an absent key changes nothing and affects 0 rows. Foreign
   * keys are not enforced, so attendance rows may name any user and program.
   */
  function Apply(t: Tables, st: Statement): (r: Effect)
    ensures r.Rejected? <==>
      st.IsInsert() && (HasRow(t, st) || (st.InsertUser? && EmailRegistered(t.users, st.user.email)))
    ensures r.Applied? ==> (r.rows == 1 <==> st.IsInsert() || HasRow(t, st)) && r.rows <= 1
  {
    match st
    case InsertUser(id, u) =>
      if id in t.users then Rejected(UserId)
      else if EmailRegistered(t.users, u.email) then Rejected(UserEmail)
      else Applied(t.(users := t.users[id := u]), 1)
    case InsertProgram(id, p) =>
      if id in t.programs then Rejected(ProgramId)
      else Applied(t.(programs := t.programs[id := p]), 1)
    case InsertParticipation(u, p, row) =>
      if (u, p) in t.participation then Rejected(ParticipationKey)
      else Applied(t.(participation := t.participation[(u, p) := row]), 1)
    case InsertAttendance(id, a) =>
      if id in t.attendance then Rejected(AttendanceId)
      else Applied(t.(attendance := t.attendance[id := a]), 1)
    case UpdateProgram(id, n, d) =>
      if id in t.programs then Applied(t.(programs := t.programs[id := Program(n, d)]), 1)
      else Applied(t, 0)
    case UpdateParticipation(u, p, m, a) =>
      if (u, p) in t.participation then Applied(t.(participation := t.participation[(u, p) := Participation(m, a)]), 1)
      else Applied(t, 0)
    case DeleteProgram(id) =>
      if id in t.programs then Applied(t.(programs := t.programs - {id}), 1) else Applied(t, 0)
    case DeleteParticipation(u, p) =>
      if (u, p) in t.participation then Applied(t.(participation := t.participation - {(u, p)}), 1)
      else Applied(t, 0)
    case DeleteAttendance(id) =>
      if id in t.attendance then Applied(t.(attendance := t.attendance - {id}), 1) else Applied(t, 0)
  }

  /**
   * The row a statement addresses is the only one that may differ: every other table is equal,
   * and the addressed table is equal once the statement's key is removed from both sides.
   */
  predicate OnlyKeyedRowChanged(t: Tables, t': Tables, st: Statement)
  {
    match st
    case InsertUser(id, _) =>
      t'.users - {id} == t.users - {id} && t'.programs == t.programs
      && t'.participation == t.participation && t'.attendance == t.attendance
    case InsertProgram(id, _) => ProgramRowOnly(t, t', id)
    case UpdateProgram(id, _, _) => ProgramRowOnly(t, t', id)
    case DeleteProgram(id) => ProgramRowOnly(t, t', id)
    case InsertParticipation(u, p, _) => ParticipationRowOnly(t, t', u, p)
    case UpdateParticipation(u, p, _, _) => ParticipationRowOnly(t, t', u, p)
    case DeleteParticipation(u, p) => ParticipationRowOnly(t, t', u, p)
    case InsertAttendance(id, _) => AttendanceRowOnly(t, t', id)
    case DeleteAttendance(id) => AttendanceRowOnly(t, t', id)
  }

  predicate ProgramRowOnly(t: Tables, t': Tables, id: int)
  {
    t'.programs - {id} == t.programs - {id} && t'.users == t.users
    && t'.participation == t.participation && t'.attendance == t.attendance
  }

  predicate ParticipationRowOnly(t: Tables, t': Tables, u: int, p: int)
  {
    t'.participation - {(u, p)} == t.participation - {(u, p)} && t'.users == t.users
    && t'.programs == t.programs && t'.attendance == t.attendance
  }

  predicate AttendanceRowOnly(t: Tables, t': Tables, id: int)
  {
    t'.attendance - {id} == t.attendance - {id} && t'.users == t.users
    && t'.programs == t.programs && t'.participation == t.participation
  }

  /** What the addressed row is after the statement took effect. */
  predicate KeyedRowAfter(t: Tables, t': Tables, st: Statement)
  {
    match st
    case InsertUser(id, u) => id in t'.users && t'.users[id] == u
    case InsertProgram(id, p) => id in t'.programs && t'.programs[id] == p
    case InsertParticipation(u, p, row) => (u, p) in t'.participation && t'.participation[(u, p)] == row
    case InsertAttendance(id, a) => id in t'.attendance && t'.attendance[id] == a
    case UpdateProgram(id, n, d) =>
      (id in t'.programs <==> id in t.programs)
      && (id in t'.programs ==> t'.programs[id] == Program(n, d))
    case UpdateParticipation(u, p, m, a) =>
      ((u, p) in t'.participation <==> (u, p) in t.participation)
      && ((u, p) in t'.participation ==> t'.participation[(u, p)] == Participation(m, a))
    case DeleteProgram(id) => id !in t'.programs
    case DeleteParticipation(u, p) => (u, p) !in t'.participation
    case DeleteAttendance(id) => id !in t'.attendance
  }

  /** Every statement that takes effect writes its own row and leaves every other row as it was. */
  lemma ApplyFrame(t: Tables, st: Statement)
    requires Apply(t, st).Applied?
    ensures OnlyKeyedRowChanged(t, Apply(t, st).tables, st)
    ensures KeyedRowAfter(t, Apply(t, st).tables, st)
  {
    match st
    case InsertUser(id, u) =>
      assert Apply(t, st).tables.users - {id} == t.users - {id};
    case InsertProgram(id, p) =>
      assert Apply(t, st).tables.programs - {id} == t.programs - {id};
    case InsertParticipation(u, p, row) =>
      assert Apply(t, st).tables.participation - {(u, p)} == t.participation - {(u, p)};
    case InsertAttendance(id, a) =>
      assert Apply(t, st).tables.attendance - {id} == t.attendance - {id};
    case UpdateProgram(id, n, d) =>
      assert Apply(t, st).tables.programs - {id} == t.programs - {id};
    case UpdateParticipation(u, p, m, a) =>
      assert Apply(t, st).tables.participation - {(u, p)} == t.participation - {(u, p)};
    case DeleteProgram(id) =>
      assert Apply(t, st).tables.programs - {id} == t.programs - {id};
    case DeleteParticipation(u, p) =>
      assert Apply(t, st).tables.participation - {(u, p)} == t.participation - {(u, p)};
    case DeleteAttendance(id) =>
      assert Apply(t, st).tables.attendance - {id} == t.attendance - {id};
  }

  /** The number of rows in the table a statement addresses. */
  function RowCount(t: Tables, st: Statement): nat
  {
    match st
    case InsertUser(_, _) => |t.users|
    case InsertProgram(_, _) => |t.programs|
    case UpdateProgram(_, _, _) => |t.programs|
    case DeleteProgram(_) => |t.programs|
    case InsertParticipation(_, _, _) => |t.participation|
    case UpdateParticipation(_, _, _, _) => |t.participation|
    case DeleteParticipation(_, _) => |t.participation|
    case InsertAttendance(_, _) => |t.attendance|
    case DeleteAttendance(_) => |t.attendance|
  }

  lemma InsertSize<K, V>(m: map<K, V>, k: K, v: V)
    requires k !in m
    ensures |m[k := v]| == |m| + 1
  {
    assert m[k := v].Keys == m.Keys + {k};
  }

  lemma OverwriteSize<K, V>(m: map<K, V>, k: K, v: V)
    requires k in m
    ensures |m[k := v]| == |m|
  {
    assert m[k := v].Keys == m.Keys;
  }

  lemma RemoveSize<K, V>(m: map<K, V>, k: K)
    requires k in m
    ensures |m - {k}| == |m| - 1
  {
    assert (m - {k}).Keys == m.Keys - {k};
  }

  /** An insert that takes effect adds exactly one row to its table. */
  lemma InsertAddsOneRow(t: Tables, st: Statement)
    requires st.IsInsert() && Apply(t, st).Applied?
    ensures Apply(t, st).rows == 1
    ensures RowCount(Apply(t, st).tables, st) == RowCount(t, st) + 1
  {
    match st
    case InsertUser(id, u) => InsertSize(t.users, id, u);
    case InsertProgram(id, p) => InsertSize(t.programs, id, p);
    case InsertParticipation(u, p, row) => InsertSize(t.participation, (u, p), row);
    case InsertAttendance(id, a) => InsertSize(t.attendance, id, a);
  }

  /** An update affects at most one row and never changes the size of its table. */
  lemma UpdateKeepsRowCount(t: Tables, st: Statement)
    requires st.IsUpdate()
    ensures Apply(t, st).Applied? && Apply(t, st).rows <= 1
    ensures RowCount(Apply(t, st).tables, st) == RowCount(t, st)
  {
    match st
    case UpdateProgram(id, n, d) =>
      if id in t.programs { OverwriteSize(t.programs, id, Program(n, d)); }
    case UpdateParticipation(u, p, m, a) =>
      if (u, p) in t.participation { OverwriteSize(t.participation, (u, p), Participation(m, a)); }
  }

  /** A delete removes exactly as many rows as it reports affected, and that is at most one. */
  lemma DeleteRemovesAffectedRows(t: Tables, st: Statement)
    requires !st.IsInsert() && !st.IsUpdate()
    ensures Apply(t, st).Applied? && Apply(t, st).rows <= 1
    ensures RowCount(Apply(t, st).tables, st) + Apply(t, st).rows == RowCount(t, st)
  {
    match st
    case DeleteProgram(id) =>
      if id in t.programs {
        assert Apply(t, st) == Applied(t.(programs := t.programs - {id}), 1);
        RemoveSize(t.programs, id);
      }
    case DeleteParticipation(u, p) =>
      if (u, p) in t.participation {
        assert Apply(t, st) == Applied(t.(participation := t.participation - {(u, p)}), 1);
        RemoveSize(t.participation, (u, p));
      }
    case DeleteAttendance(id) =>
      if id in t.attendance {
        assert Apply(t, st) == Applied(t.(attendance := t.attendance - {id}), 1);
        RemoveSize(t.attendance, id);
      }
  }

  /** No statement can make two users share an email. */
  lemma ApplyKeepsEmailsUnique(t: Tables, st: Statement)
    requires UniqueEmails(t.users)
    requires Apply(t, st).Applied?
    ensures UniqueEmails(Apply(t, st).tables.users)
  {
    if st.InsertUser? {
      var users' := Apply(t, st).tables.users;
      forall a, b | a in users' && b in users' && users'[a].email == users'[b].email
        ensures a == b
      {
      }
    }
  }

  /** A statement with `int` keys keeps every key column within the `int` range. */
  lemma ApplyKeepsKeysInt32(t: Tables, st: Statement)
    requires KeysInt32(t) && st.KeyInt32()
    requires Apply(t, st).Applied?
    ensures KeysInt32(Apply(t, st).tables)
  {
  }

  /** The table already holds the row a statement addresses (by key). */
  predicate HasRow(t: Tables, st: Statement)
  {
    match st
    case InsertUser(id, _) => id in t.users
    case InsertProgram(id, _) => id in t.programs
    case UpdateProgram(id, _, _) => id in t.programs
    case DeleteProgram(id) => id in t.programs
    case InsertParticipation(u, p, _) => (u, p) in t.participation
    case UpdateParticipation(u, p, _, _) => (u, p) in t.participation
    case DeleteParticipation(u, p) => (u, p) in t.participation
    case InsertAttendance(id, _) => id in t.attendance
    case DeleteAttendance(id) => id in t.attendance
  }

  /**
   * A duplicate or a missing row means nothing is written: an insert onto a present key is
   * rejected, and an update or delete of an absent key leaves the tables as they are with 0 rows
   * affected; an update or delete of a present key affects exactly one row.
   */
  lemma WriteNeedsRow(t: Tables, st: Statement)
    ensures st.IsInsert() && HasRow(t, st) ==> Apply(t, st).Rejected?
    ensures !st.IsInsert() && !HasRow(t, st) ==> Apply(t, st) == Applied(t, 0)
    ensures !st.IsInsert() && HasRow(t, st) ==> Apply(t, st).Applied? && Apply(t, st).rows == 1
    ensures st.IsInsert() && !HasRow(t, st) && !(st.InsertUser? && EmailRegistered(t.users, st.user.email))
      ==> Apply(t, st).Applied? && Apply(t, st).rows == 1
  {
  }

  /** An attendance row is accepted whatever user and program it names: no foreign key is checked. */
  lemma AttendanceIgnoresForeignKeys(t: Tables, id: int, a: Attendance)
    requires id !in t.attendance
    ensures Apply(t, InsertAttendance(id, a)) == Applied(t.(attendance := t.attendance[id := a]), 1)
  {
  }

  /** Every `SELECT` the application prepares, with its arguments. */
  datatype Query =
    | EmailCheck(email: string)
    | LoginLookup(email: string, hashedPassword: string)
    | ParticipationCheck(userId: int, programId: int)
    | ProgramById(programId: int)
    | ParticipationByKey(userId: int, programId: int)
    | AttendanceById(attendanceId: int)
    | ListUsers
    | ListPrograms
    | ListParticipation
    | ListAttendance

  /** The SQL text of each query. */
  function QuerySql(q: Query): string
  {
    match q
    case EmailCheck(_) => EmailCheckSql
    case LoginLookup(_, _) => LoginLookupSql
    case ParticipationCheck(_, _) => ParticipationCheckSql
    case ProgramById(_) => ProgramByIdSql
    case ParticipationByKey(_, _) => ParticipationByKeySql
    case AttendanceById(_) => AttendanceByIdSql
    case ListUsers => ListUsersSql
    case ListPrograms => ListProgramsSql
    case ListParticipation => ListParticipationSql
    case ListAttendance => ListAttendanceSql
  }

  const EmailCheckSql := "SELECT * FROM user WHERE email = ?"
  const LoginLookupSql := "SELECT user_id, name FROM user WHERE email = ? AND password = ?"
  const ParticipationCheckSql := "SELECT user_id FROM participation WHERE user_id = ? AND program_id = ?"
  const ProgramByIdSql := "SELECT * FROM program WHERE program_id = ?"
  const ParticipationByKeySql := "SELECT * FROM participation WHERE user_id = ? AND program_id = ?"
  const AttendanceByIdSql := "SELECT * FROM attendance WHERE attendance_id = ?"
  const ListUsersSql := "SELECT user_id, name, gender, year_level, email FROM user"
  const ListProgramsSql := "SELECT * FROM program"
  const ListParticipationSql := "SELECT * FROM participation"
  const ListAttendanceSql := "SELECT * FROM attendance"

  /** The arguments passed after the query text. */
  function QueryParams(q: Query): seq<Value>
  {
    match q
    case EmailCheck(e) => [TextVal(e)]
    case LoginLookup(e, h) => [TextVal(e), TextVal(h)]
    case ParticipationCheck(u, p) => [IntVal(u), IntVal(p)]
    case ProgramById(id) => [IntVal(id)]
    case ParticipationByKey(u, p) => [IntVal(u), IntVal(p)]
    case AttendanceById(id) => [IntVal(id)]
    case ListUsers => []
    case ListPrograms => []
    case ListParticipation => []
    case ListAttendance => []
  }

  /** A user row as `SELECT *` returns it, password hash included. */
  function UserRecord(id: int, u: User): seq<Value>
  {
    [IntVal(id), TextVal(u.name), TextVal(u.gender), TextVal(u.yearLevel), TextVal(u.email), TextVal(u.password)]
  }

  /** A user row as the user listing returns it: every column but the password. */
  function UserListing(id: int, u: User): seq<Value>
  {
    [IntVal(id), TextVal(u.name), TextVal(u.gender), TextVal(u.yearLevel), TextVal(u.email)]
  }

  function ProgramRecord(id: int, p: Program): seq<Value>
  {
    [IntVal(id), TextVal(p.name), TextVal(p.description)]
  }

  function ParticipationRecord(u: int, p: int, row: Participation): seq<Value>
  {
    [IntVal(u), IntVal(p), IntVal(row.meetings), AmountVal(row.amount)]
  }

  function AttendanceRecord(id: int, a: Attendance): seq<Value>
  {
    [IntVal(id), IntVal(a.userId), IntVal(a.programId), TextVal(a.date)]
  }

  /** The number of columns the query's `SELECT` list names (`*` being every column of its table). */
  function ColumnCount(q: Query): nat
  {
    match q
    case EmailCheck(_) => 6
    case LoginLookup(_, _) => 2
    case ParticipationCheck(_, _) => 1
    case ProgramById(_) => 3
    case ParticipationByKey(_, _) => 4
    case AttendanceById(_) => 4
    case ListUsers => 5
    case ListPrograms => 3
    case ListParticipation => 4
    case ListAttendance => 4
  }

  /**
   * The rows a query returns. No query has an `ORDER BY`, so the result is a set. A lookup by key
   * returns at most one row.
   */
  function Select(t: Tables, q: Query): (r: set<seq<Value>>)
    ensures q.ParticipationCheck? || q.ProgramById? || q.ParticipationByKey? || q.AttendanceById? ==> |r| <= 1
  {
    match q
    case EmailCheck(e) =>
      set id | id in t.users && t.users[id].email == e :: UserRecord(id, t.users[id])
    case LoginLookup(e, h) =>
      set id | id in t.users && t.users[id].email == e && t.users[id].password == h
        :: [IntVal(id), TextVal(t.users[id].name)]
    case ParticipationCheck(u, p) => if (u, p) in t.participation then {[IntVal(u)]} else {}
    case ProgramById(id) => if id in t.programs then {ProgramRecord(id, t.programs[id])} else {}
    case ParticipationByKey(u, p) =>
      if (u, p) in t.participation then {ParticipationRecord(u, p, t.participation[(u, p)])} else {}
    case AttendanceById(id) => if id in t.attendance then {AttendanceRecord(id, t.attendance[id])} else {}
    case ListUsers => set id | id in t.users :: UserListing(id, t.users[id])
    case ListPrograms => set id | id in t.programs :: ProgramRecord(id, t.programs[id])
    case ListParticipation =>
      set k | k in t.participation :: ParticipationRecord(k.0, k.1, t.participation[k])
    case ListAttendance => set id | id in t.attendance :: AttendanceRecord(id, t.attendance[id])
  }

  /** Every row a query returns has exactly the columns its `SELECT` list names. */
  lemma SelectColumns(t: Tables, q: Query, row: seq<Value>)
    requires row in Select(t, q)
    ensures |row| == ColumnCount(q)
  {
  }

  /** The lookups by key find a row exactly when the key is present; the email check exactly when the email is taken. */
  lemma LookupFindsKey(t: Tables, q: Query)
    ensures q.EmailCheck? ==> (Select(t, q) != {} <==> EmailRegistered(t.users, q.email))
    ensures q.ParticipationCheck? ==> (Select(t, q) != {} <==> (q.userId, q.programId) in t.participation)
    ensures q.ProgramById? ==> (Select(t, q) != {} <==> q.programId in t.programs)
    ensures q.ParticipationByKey? ==> (Select(t, q) != {} <==> (q.userId, q.programId) in t.participation)
    ensures q.AttendanceById? ==> (Select(t, q) != {} <==> q.attendanceId in t.attendance)
  {
    if q.EmailCheck? && EmailRegistered(t.users, q.email) {
      var id :| id in t.users && t.users[id].email == q.email;
      assert UserRecord(id, t.users[id]) in Select(t, q);
    }
  }

  /** The user listing is the same whatever the stored passwords are: it never shows them. */
  lemma ListingOmitsPasswords(t: Tables, passwords: map<int, string>)
    requires passwords.Keys == t.users.Keys
    ensures
      var t' := t.(users := map id | id in t.users :: t.users[id].(password := passwords[id]));
      Select(t', ListUsers) == Select(t, ListUsers)
  {
    var t' := t.(users := map id | id in t.users :: t.users[id].(password := passwords[id]));
    forall id | id in t.users
      ensures id in t'.users && UserListing(id, t'.users[id]) == UserListing(id, t.users[id])
    {
    }
    forall row | row in Select(t, ListUsers)
      ensures row in Select(t', ListUsers)
    {
      var id :| id in t.users && row == UserListing(id, t.users[id]);
      assert row == UserListing(id, t'.users[id]);
    }
  }
}
