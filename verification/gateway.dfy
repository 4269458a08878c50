/**
 * The database gateway (`config`): the single connection, positional parameter binding, the
 * classification of engine failures, the zero-rows warning and id generation.
 */
module Gateway {
  import opened Wrappers
  import opened Text
  import opened Schema

  /** The static `conn` field: never assigned (null), open, or closed. */
  datatype ConnState = NoConnection | Open | Closed

  /**
   * `connectDB`: only a missing or closed connection is (re)opened; `reachable` says whether the
   * driver loaded and the database file could be opened. A failure leaves the field as it was.
   */
  function Connect(c: ConnState, reachable: bool): (r: ConnState)
    ensures c == Open ==> r == Open
    ensures c != Open ==> (r.Open? <==> reachable) && (!reachable ==> r == c)
  {
    if c == NoConnection || c == Closed then (if reachable then Open else c) else c
  }

  /** `closeDB`: only an open connection is closed. */
  function Close(c: ConnState): (r: ConnState)
    ensures r != Open
    ensures c != Open ==> r == c
  {
    if c == Open then Closed else c
  }

  /** Connecting to an open connection does nothing, so `connectDB` is idempotent. */
  lemma ConnectIdempotent(c: ConnState, reachable: bool, again: bool)
    ensures reachable ==> Connect(Connect(c, reachable), again) == Connect(c, reachable)
  {
  }

  /** Closing twice is closing once. */
  lemma CloseIdempotent(c: ConnState)
    ensures Close(Close(c)) == Close(c)
  {
  }

  /** The categories `addRecord` sorts an engine failure into. */
  datatype ErrorKind = Busy | Duplicate | ForeignKey | Generic

  const BusyMarker := "SQLITE_BUSY"
  const UniqueMarker := "UNIQUE constraint failed"
  const ForeignKeyMarker := "FOREIGN KEY constraint failed"

  /**
   * The failure category of an engine message, tested in a fixed priority order: a busy database
   * outranks a uniqueness violation, which outranks a foreign-key violation.
   */
  function Classify(message: string): (k: ErrorKind)
    ensures k == Busy <==> Contains(message, BusyMarker)
    ensures k == Duplicate <==> !Contains(message, BusyMarker) && Contains(message, UniqueMarker)
    ensures k == ForeignKey <==>
      !Contains(message, BusyMarker) && !Contains(message, UniqueMarker) && Contains(message, ForeignKeyMarker)
    ensures k == Generic <==>
      !Contains(message, BusyMarker) && !Contains(message, UniqueMarker) && !Contains(message, ForeignKeyMarker)
  {
    if Contains(message, BusyMarker) then Busy
    else if Contains(message, UniqueMarker) then Duplicate
    else if Contains(message, ForeignKeyMarker) then ForeignKey
    else Generic
  }

  /** A message that mentions a busy database is `Busy`, whatever constraint it also names. */
  lemma BusyOutranksConstraints(before: string, after: string)
    ensures Classify(before + BusyMarker + after) == Busy
  {
    ContainsInfix(before, BusyMarker, after);
  }

  /** A uniqueness violation reported by a non-busy engine is `Duplicate`, not a foreign-key failure. */
  lemma UniqueOutranksForeignKey(before: string, after: string)
    requires !Contains(before + UniqueMarker + after, BusyMarker)
    ensures Classify(before + UniqueMarker + after) == Duplicate
  {
    ContainsInfix(before, UniqueMarker, after);
  }

  /**
   * The rejection `Apply` gives for an existing key or email carries the model's uniqueness
   * message, `UNIQUE constraint failed: <table>.<column>`. Without the busy marker in it, it is a
   * duplicate by `UniqueOutranksForeignKey`; the marker is absent because no character of that
   * text is a `Y`.
   */
  lemma RejectionIsUniqueViolation(c: UniqueColumn)
    ensures Classify(UniqueViolation(c)) == Duplicate
  {
    var column := ": " + ColumnName(c);
    UniqueViolationLacksBusy(c);
    MarkerIsEngineText();
    assert [] + UniqueMarker == UniqueMarker;
    UniqueOutranksForeignKey([], column);
  }

  /** The marker `addRecord` looks for is the text the engine starts its message with. */
  lemma MarkerIsEngineText()
    ensures UniqueMarker == UniqueViolationText
  {
  }

  /** The modelled uniqueness message never names `SQLITE_BUSY`: it has no `Y`. */
  lemma UniqueViolationLacksBusy(c: UniqueColumn)
    ensures !Contains(UniqueViolation(c), BusyMarker)
  {
    var column := ": " + ColumnName(c);
    MarkerIsEngineText();
    MarkerLacksY();
    ColumnLacksY(c);
    LacksConcat(UniqueMarker, column, 'Y');
    assert UniqueViolation(c) == UniqueMarker + column;
    assert BusyMarker[10] == 'Y';
    MissingCharNotContained(UniqueViolation(c), BusyMarker, 10);
  }

  lemma MarkerLacksY()
    ensures Lacks(UniqueMarker, 'Y')
  {
  }

  lemma ColumnNamesLackY()
    ensures Lacks(": ", 'Y') && Lacks(UserIdColumn, 'Y') && Lacks(UserEmailColumn, 'Y')
    ensures Lacks(ProgramIdColumn, 'Y') && Lacks(ParticipationKeyColumns, 'Y') && Lacks(AttendanceIdColumn, 'Y')
  {
    assert Lacks(ParticipationUserColumn, 'Y') && Lacks(", ", 'Y') && Lacks(ParticipationProgramColumn, 'Y');
    LacksConcat(ParticipationUserColumn, ", ", 'Y');
    LacksConcat(ParticipationUserColumn + ", ", ParticipationProgramColumn, 'Y');
  }

  lemma ColumnLacksY(c: UniqueColumn)
    ensures Lacks(": " + ColumnName(c), 'Y')
  {
    ColumnNamesLackY();
    LacksConcat(": ", ColumnName(c), 'Y');
  }

  /** No character of `s` is `ch`. */
  predicate Lacks(s: string, ch: char)
  {
    forall i :: 0 <= i < |s| ==> s[i] != ch
  }

  lemma LacksConcat(a: string, b: string, ch: char)
    requires Lacks(a, ch) && Lacks(b, ch)
    ensures Lacks(a + b, ch)
  {
    forall i | 0 <= i < |a + b|
      ensures (a + b)[i] != ch
    {
      if i >= |a| {
        assert (a + b)[i] == b[i - |a|];
      }
    }
  }

  /** A write the engine rejects, with no other failure, is reported as a duplicate entry. */
  lemma RejectionReportedAsDuplicate(t: Tables, st: Statement, fault: Option<string>)
    ensures fault.None? && Apply(t, st).Rejected? ==>
      Execute(t, st, fault).outcome.Failed? && Execute(t, st, fault).outcome.Kind() == Duplicate
  {
    if fault.None? && Apply(t, st).Rejected? {
      RejectionIsUniqueViolation(Apply(t, st).column);
    }
  }

  /**
   * `addRecord`'s warning: only a statement that affected no row and whose text starts, ignoring
   * case, with `update` or `delete`.
   */
  predicate WarnsZeroRows(sql: string, rows: nat)
  {
    rows == 0 && (StartsWithIgnoreCase(sql, "update") || StartsWithIgnoreCase(sql, "delete"))
  }

  /** The keyword a statement's SQL text starts with, in lower case. */
  function Keyword(st: Statement): string
  {
    if st.IsInsert() then "insert" else if st.IsUpdate() then "update" else "delete"
  }

  /** The lower-cased SQL text of every statement starts with its keyword. */
  lemma SqlStartsWithKeyword(st: Statement)
    ensures StartsWithIgnoreCase(Sql(st), Keyword(st))
  {
    StartsWithLoweredPrefix(Verb(st), Clause(st));
    VerbLowered(st);
  }

  lemma VerbLowered(st: Statement)
    ensures ToLower(Verb(st)) == Keyword(st)
  {
    if st.IsInsert() {
      assert ToLower("INSERT") == "insert";
    } else if st.IsUpdate() {
      assert ToLower("UPDATE") == "update";
    } else {
      assert ToLower("DELETE") == "delete";
    }
  }

  /** An insert never draws the zero-rows warning. */
  lemma InsertsNeverWarn(st: Statement, rows: nat)
    requires st.IsInsert()
    ensures !WarnsZeroRows(Sql(st), rows)
  {
    SqlStartsWithKeyword(st);
    var low := ToLower(Sql(st));
    assert low[0] == 'i';
  }

  /** The zero-rows warning is given exactly for an update or delete that affected no row. */
  lemma WarnsZeroRowsExactly(st: Statement, rows: nat)
    ensures WarnsZeroRows(Sql(st), rows) <==> rows == 0 && !st.IsInsert()
  {
    if st.IsInsert() {
      InsertsNeverWarn(st, rows);
    } else if rows == 0 {
      ZeroRowsWarnedForUpdateDelete(st);
    }
  }

  /** What `addRecord` reports once the statement has run (or failed). */
  datatype WriteOutcome = Done(rows: nat) | ZeroRowsWarned | Failed(message: string)
  {
    /** The category printed for a failure. */
    function Kind(): ErrorKind
      requires Failed?
    {
      Classify(message)
    }
  }

  datatype Execution = Execution(tables: Tables, outcome: WriteOutcome)

  /** What `addRecord` reports for a statement that ran and affected `rows` rows. */
  function Report(st: Statement, rows: nat): (w: WriteOutcome)
    ensures w.ZeroRowsWarned? <==> WarnsZeroRows(Sql(st), rows)
    ensures !w.ZeroRowsWarned? ==> w == Done(rows)
  {
    if rows > 0 then Done(rows) else if WarnsZeroRows(Sql(st), rows) then ZeroRowsWarned else Done(0)
  }

  /**
   * `addRecord` against the tables: `fault` is a failure the engine reports for reasons outside
   * the model (a locked file, a closed connection); the engine's own rejections come from `Apply`.
   */
  function Execute(t: Tables, st: Statement, fault: Option<string>): (e: Execution)
    ensures e.outcome.Failed? <==> fault.Some? || Apply(t, st).Rejected?
    ensures e.outcome.Failed? ==> e.tables == t
    ensures !e.outcome.Failed? ==> e.tables == Apply(t, st).tables
    ensures fault.None? && Apply(t, st).Applied? ==> e.outcome == Report(st, Apply(t, st).rows)
  {
    if fault.Some? then Execution(t, Failed(fault.value))
    else match Apply(t, st)
      case Rejected(column) => Execution(t, Failed(UniqueViolation(column)))
      case Applied(t', rows) =>
        Execution(t', Report(st, rows))
  }

  /** A write changes at most the row it addresses, whether it succeeds or fails. */
  lemma ExecuteFrame(t: Tables, st: Statement, fault: Option<string>)
    ensures OnlyKeyedRowChanged(t, Execute(t, st, fault).tables, st)
  {
    if fault.None? && Apply(t, st).Applied? {
      ApplyFrame(t, st);
    }
  }

  /** An insert onto a free key, with no engine failure, adds its row and reports one row affected. */
  lemma InsertOnFreeKey(t: Tables, st: Statement)
    requires st.IsInsert() && !HasRow(t, st)
    requires st.InsertUser? ==> !EmailRegistered(t.users, st.user.email)
    ensures Execute(t, st, None).outcome == Done(1)
    ensures KeyedRowAfter(t, Execute(t, st, None).tables, st)
    ensures RowCount(Execute(t, st, None).tables, st) == RowCount(t, st) + 1
  {
    WriteNeedsRow(t, st);
    ApplyFrame(t, st);
    InsertAddsOneRow(t, st);
  }

  /** No execution, failed or not, puts a key outside the `int` range. */
  lemma ExecuteKeepsKeysInt32(t: Tables, st: Statement, fault: Option<string>)
    requires KeysInt32(t) && st.KeyInt32()
    ensures KeysInt32(Execute(t, st, fault).tables)
  {
    if fault.None? && Apply(t, st).Applied? {
      ApplyKeepsKeysInt32(t, st);
    }
  }

  /** No execution, failed or not, makes two users share an email. */
  lemma ExecuteKeepsEmailsUnique(t: Tables, st: Statement, fault: Option<string>)
    requires UniqueEmails(t.users)
    ensures UniqueEmails(Execute(t, st, fault).tables.users)
  {
    if fault.None? && Apply(t, st).Applied? {
      ApplyKeepsEmailsUnique(t, st);
    }
  }

  /**
   * An update or delete that runs without a fault either changes its one row or draws the
   * zero-rows warning; the warning is given exactly when the keyed row is absent.
   */
  lemma UpdateDeleteOutcome(t: Tables, st: Statement)
    requires !st.IsInsert()
    ensures Apply(t, st).Applied?
    ensures Execute(t, st, None).outcome == (if Apply(t, st).rows == 1 then Done(1) else ZeroRowsWarned)
  {
    ZeroRowsWarnedForUpdateDelete(st);
    if st.IsUpdate() {
      UpdateKeepsRowCount(t, st);
    } else {
      DeleteRemovesAffectedRows(t, st);
    }
    var rows := Apply(t, st).rows;
    assert rows == 0 || rows == 1;
  }

  /** An update or delete that affects no row draws the warning. */
  lemma ZeroRowsWarnedForUpdateDelete(st: Statement)
    requires !st.IsInsert()
    ensures Report(st, 0) == ZeroRowsWarned
  {
    SqlStartsWithKeyword(st);
  }

  /** The tables `getNextId` is called on, each keyed by one integer id column. */
  datatype IdTable = UserTable | ProgramTable | AttendanceTable

  /** The values of a table's id column. */
  function Ids(t: Tables, table: IdTable): set<int>
  {
    match table
    case UserTable => t.users.Keys
    case ProgramTable => t.programs.Keys
    case AttendanceTable => t.attendance.Keys
  }

  /** A set with a positive size has an element. */
  lemma HasElement(s: set<int>)
    requires |s| > 0
    ensures exists y :: y in s
  {
    assert (forall y :: y !in s) ==> s == {};
  }

  /** A set that is not the singleton of one of its elements has another element. */
  lemma OtherElement(s: set<int>, y: int)
    requires y in s && s != {y}
    ensures exists z :: z in s && z != y
  {
    assert (forall z :: z in s ==> z == y) ==> s == {y};
  }

  /** `MAX(id)` over a non-empty id column. */
  ghost function MaxOf(s: set<int>): (m: int)
    requires |s| > 0
    ensures m in s && forall x :: x in s ==> x <= m
  {
    HasElement(s);
    var y :| y in s;
    if s == {y} then y
    else
      OtherElement(s, y);
      var z :| z in s && z != y;
      assert z in s - {y};
      var r := MaxOf(s - {y});
      assert forall x :: x in s ==> x == y || x in s - {y};
      if y <= r then r else y
  }

  /** Java `int` successor: `MaxInt32 + 1` wraps round to `MinInt32`. */
  function Succ32(n: int): int
  {
    if n == MaxInt32 then MinInt32 else n + 1
  }

  /**
   * `getNextId`: one more than the largest id; 1 for an empty table (whose `MAX` is SQL NULL,
   * read as 0) and 1 when the query fails.
   */
  ghost function NextId(ids: set<int>, queryOk: bool): (n: int)
    ensures (forall i :: i in ids ==> IsInt32(i)) ==> IsInt32(n)
  {
    if !queryOk || |ids| == 0 then 1 else Succ32(MaxOf(ids))
  }

  /**
   * While the query works and the ids are below the `int` maximum, a generated id is new: it
   * exceeds every id in the table, so it is never one of them and never below one of them.
   */
  lemma NextIdIsFresh(ids: set<int>)
    requires forall i :: i in ids ==> i < MaxInt32
    ensures NextId(ids, true) !in ids
    ensures forall i :: i in ids ==> i < NextId(ids, true)
    ensures |ids| > 0 ==> NextId(ids, true) - 1 in ids
  {
    if |ids| > 0 {
      var m := MaxOf(ids);
      assert m < MaxInt32;
    }
  }

  /**
   * Java `int` addition wraps: when the largest id is the `int` maximum, the next id is the
   * minimum, which may well be free but is no longer above every id.
   */
  lemma NextIdWrapsAtMaximum(ids: set<int>)
    requires MaxInt32 in ids && forall i :: i in ids ==> i <= MaxInt32
    ensures NextId(ids, true) == MinInt32
  {
    var m := MaxOf(ids);
    assert MaxInt32 <= m && m <= MaxInt32;
  }

  /** Deleting an id below the largest leaves the next id as it was: a gap is never filled. */
  lemma NextIdSkipsGaps(ids: set<int>, x: int)
    requires |ids| > 0 && x in ids && x < MaxOf(ids)
    ensures NextId(ids - {x}, true) == NextId(ids, true)
  {
    var m := MaxOf(ids);
    assert m in ids - {x};
    var m' := MaxOf(ids - {x});
    assert m <= m' <= m;
  }

  /**
   * Deleting the largest id `m` frees it again: while another id remains, the next id no longer
   * exceeds `m`, and it is `m` once more when `m - 1` is still present.
   */
  lemma NextIdReusesFreedMaximum(ids: set<int>, m: int)
    requires m in ids && m <= MaxInt32 && forall i :: i in ids ==> i <= m
    requires ids != {m}
    ensures NextId(ids - {m}, true) <= m
    ensures m - 1 in ids ==> NextId(ids - {m}, true) == m
  {
    var rest := ids - {m};
    OtherElement(ids, m);
    var z :| z in ids && z != m;
    assert z in rest;
    var m' := MaxOf(rest);
    assert m' in ids && m' != m;
    if m - 1 in ids {
      assert m - 1 in rest;
    }
  }

  /** Where a `SELECT` can fail for reasons outside the model: while preparing or while executing. */
  datatype QueryFault = NoFault | PrepareFault | ExecuteFault

  /**
   * What the engine answers, in one user action, to everything the model cannot see: whether the
   * id query works, whether the pre-check query fails, and the failure of the write, if any.
   */
  datatype Replies = Replies(idQueryOk: bool, check: QueryFault, writeFault: Option<string>)

  /** Placeholder `i` (counted from 1) bound to `params[i - 1]`. */
  function Positional(params: seq<Value>): (m: map<int, Value>)
    ensures forall i :: i in m <==> 1 <= i <= |params|
    ensures forall i :: i in m ==> m[i] == params[i - 1]
  {
    if params == [] then map[]
    else Positional(params[..|params| - 1])[|params| := params[|params| - 1]]
  }

  /** Binding one more placeholder after a union is the union with one more binding. */
  lemma UnionUpdate(m: map<int, Value>, n: map<int, Value>, k: int, v: Value)
    ensures (m + n)[k := v] == m + n[k := v]
  {
  }

  /** A `PreparedStatement`: its SQL text, the values bound to its placeholders, and whether it is closed. */
  class PreparedStatement {
    const sql: string
    var bindings: map<int, Value>
    var closed: bool

    constructor (sql: string)
      ensures this.sql == sql && bindings == map[] && !closed
    {
      this.sql := sql;
      bindings := map[];
      closed := false;
    }

    /** `setParameters`: binds `params[i]` to placeholder `i + 1`, in order; a null array binds nothing. */
    method SetParameters(params: Option<seq<Value>>)
      modifies this`bindings
      ensures params.None? ==> bindings == old(bindings)
      ensures params.Some? ==> bindings == old(bindings) + Positional(params.value)
    {
      if params.Some? {
        var ps := params.value;
        for i := 0 to |ps|
          invariant bindings == old(bindings) + Positional(ps[..i])
        {
          assert ps[..i + 1][..i] == ps[..i];
          UnionUpdate(old(bindings), Positional(ps[..i]), i + 1, ps[i]);
          bindings := bindings[i + 1 := ps[i]];
        }
        assert ps[..|ps|] == ps;
      }
    }

    method Close()
      modifies this`closed
      ensures closed
    {
      closed := true;
    }
  }

  /** The database behind the single connection: the connection state and the four tables. */
  class Database {
    var conn: ConnState
    var tables: Tables

    /** The user table never holds two rows with one email, and every key is a Java `int`. */
    ghost predicate Valid()
      reads this
    {
      UniqueEmails(tables.users) && KeysInt32(tables)
    }

    /** The database file as found on disk, before `connectDB`. */
    constructor (stored: Tables)
      requires UniqueEmails(stored.users) && KeysInt32(stored)
      ensures Valid() && conn == NoConnection && tables == stored
    {
      conn := NoConnection;
      tables := stored;
    }

    method ConnectDB(reachable: bool)
      modifies this`conn
      ensures conn == Connect(old(conn), reachable)
    {
      if conn == NoConnection || conn == Closed {
        if reachable {
          conn := Open;
        }
      }
    }

    method CloseDB()
      modifies this`conn
      ensures conn == Close(old(conn))
    {
      if conn == Open {
        conn := Closed;
      }
    }

    /** `addRecord`: prepare, bind, execute; a failure is classified and nothing is written. */
    method AddRecord(st: Statement, fault: Option<string>) returns (w: WriteOutcome)
      requires conn == Open && Valid() && st.KeyInt32()
      modifies this`tables
      ensures Valid()
      ensures Execution(tables, w) == Execute(old(tables), st, fault)
    {
      var ps := new PreparedStatement(Sql(st));
      ps.SetParameters(Some(Params(st)));
      var e := Execute(tables, st, fault);
      ExecuteKeepsEmailsUnique(tables, st, fault);
      ExecuteKeepsKeysInt32(tables, st, fault);
      tables, w := e.tables, e.outcome;
      ps.Close();
    }

    /** `updateRecord`: `addRecord`, then success is reported for any statement that is not an insert. */
    method UpdateRecord(st: Statement, fault: Option<string>) returns (w: WriteOutcome, reported: bool)
      requires conn == Open && Valid() && st.KeyInt32()
      modifies this`tables
      ensures Valid()
      ensures Execution(tables, w) == Execute(old(tables), st, fault)
      ensures reported <==> !StartsWithIgnoreCase(Sql(st), "insert")
    {
      w := AddRecord(st, fault);
      reported := !StartsWithIgnoreCase(Sql(st), "insert");
    }

    /** `deleteRecord`: the same as `updateRecord`. */
    method DeleteRecord(st: Statement, fault: Option<string>) returns (w: WriteOutcome, reported: bool)
      requires conn == Open && Valid() && st.KeyInt32()
      modifies this`tables
      ensures Valid()
      ensures Execution(tables, w) == Execute(old(tables), st, fault)
      ensures reported <==> !StartsWithIgnoreCase(Sql(st), "insert")
    {
      w := AddRecord(st, fault);
      reported := !StartsWithIgnoreCase(Sql(st), "insert");
    }

    /** `getNextId` on one of the id columns. */
    method GetNextId(table: IdTable, queryOk: bool) returns (id: int)
      requires conn == Open
      ensures id == NextId(Ids(tables, table), queryOk)
      ensures Valid() ==> IsInt32(id)
    {
      var ids := Ids(tables, table);
      if !queryOk || |ids| == 0 {
        return 1;
      }
      ghost var max := MaxOf(ids);
      var m :| m in ids && forall x :: x in ids ==> x <= m;
      assert max <= m <= max;
      id := Succ32(m);
    }

    /**
     * `getRecords`: a query that fails to prepare yields no statement and no rows (`null`); one
     * that fails to execute has its statement closed at once; otherwise the rows are handed back
     * with the statement left open for the caller.
     */
    method GetRecords(q: Query, fault: QueryFault)
      returns (ps: PreparedStatement?, rs: Option<set<seq<Value>>>)
      requires conn == Open
      ensures fault == PrepareFault <==> ps == null
      ensures ps != null ==> fresh(ps) && ps.sql == QuerySql(q) && ps.bindings == Positional(QueryParams(q))
      ensures ps != null ==> (ps.closed <==> fault == ExecuteFault)
      ensures rs == if fault == NoFault then Some(Select(tables, q)) else None
    {
      if fault == PrepareFault {
        return null, None;
      }
      ps := new PreparedStatement(QuerySql(q));
      ps.SetParameters(Some(QueryParams(q)));
      if fault == ExecuteFault {
        ps.Close();
        return ps, None;
      }
      rs := Some(Select(tables, q));
    }

    /** `rs != null && rs.next()`: the query ran and found a row. */
    method Found(q: Query, fault: QueryFault) returns (found: bool)
      requires conn == Open
      ensures found <==> fault == NoFault && Select(tables, q) != {}
    {
      var ps, rs := GetRecords(q, fault);
      found := rs.Some? && rs.value != {};
    }
  }

  /** The statements the record flows send through `updateRecord` and `deleteRecord` always report success. */
  lemma NonInsertsReportSuccess(st: Statement)
    requires !st.IsInsert()
    ensures !StartsWithIgnoreCase(Sql(st), "insert")
  {
    SqlStartsWithKeyword(st);
    assert Keyword(st)[0] != 'i';
  }
}
