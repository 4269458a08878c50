/**
 * The record flows of the main menu (`RecordManager`): add a program, record participation and
 * attendance, list a table, update and delete with an existence pre-check. Each flow reads its
 * answers from the shared scanner and writes through the gateway.
 */
module Records {
  import opened Wrappers
  import opened Text
  import opened Schema
  import opened Gateway
  import opened Console

  /**
   * `getIntInput`: the trimmed line as a 32-bit integer, or the sentinel -1 when it does not
   * parse.
   */
  function IntInput(line: string): (n: int)
    ensures IsInt32(n)
    ensures n != -1 ==> ParseInt(Trim(line)) == Some(n)
    ensures ParseInt(Trim(line)).None? ==> n == -1
  {
    ParseInt(Trim(line)).GetOr(-1)
  }

  /** Every 32-bit integer typed as such, with or without blanks around it, is read back. */
  lemma IntInputShow(v: int, before: string, after: string)
    requires MinInt32 <= v <= MaxInt32
    requires forall i :: 0 <= i < |before| ==> IsTrimmable(before[i])
    requires forall i :: 0 <= i < |after| ==> IsTrimmable(after[i])
    ensures IntInput(before + Show(v) + after) == v
  {
    var s := Show(v);
    var line := before + s + after;
    ParseShow(v);
    ParseAcceptsOnlyTrimmed(s);
    TrimShape(line);
    var i := |line| - |TrimLeft(line)|;
    var r := Trim(line);
    assert !IsTrimmable(line[|before|]) && !IsTrimmable(line[|before| + |s| - 1]) by {
      assert line[|before|] == s[0] && line[|before| + |s| - 1] == s[|s| - 1];
    }
    assert i == |before| by {
      assert forall k :: 0 <= k < |before| ==> line[k] == before[k];
    }
    assert i + |r| == |before| + |s| by {
      assert forall k :: |before| + |s| <= k < |line| ==> line[k] == after[k - |before| - |s|];
    }
    assert r == s;
  }

  /** A line that does not parse reads as -1, exactly like a typed `-1`: the two cannot be told apart. */
  lemma SentinelIsAmbiguous(line: string)
    requires ParseInt(Trim(line)).None?
    ensures IntInput(line) == -1 == IntInput("-1")
  {
    ParseShow(-1);
    assert Show(-1) == "-1";
    TrimClean("-1");
  }

  /**
   * The participation update does not abort on an unparsable meetings count: it overwrites the
   * stored count of a present row with the -1 sentinel.
   */
  lemma UnparsableMeetingsStoredAsSentinel(t: Tables, u: int, p: int, line: string, a: Amount)
    requires (u, p) in t.participation
    requires ParseInt(Trim(line)).None?
    ensures var t' := Apply(t, UpdateParticipation(u, p, IntInput(line), a)).tables;
      (u, p) in t'.participation && t'.participation[(u, p)] == Participation(-1, a)
  {
    SentinelIsAmbiguous(line);
  }

  /**
   * What a flow ended with: a -1 answer, a menu choice that is not offered, a row the pre-check
   * found already recorded, a row it did not find, a deletion not confirmed, a write handed to the
   * gateway, or the rows of a listing (`None` when the query failed).
   */
  datatype Outcome =
    | InvalidInput
    | InvalidOption
    | AlreadyRecorded
    | NotFound
    | Cancelled
    | Wrote(write: WriteOutcome)
    | Listed(rows: Option<set<seq<Value>>>)

  /** The listing `viewRecords` runs for each of its four choices. */
  function ViewQuery(choice: int): (q: Query)
    requires 1 <= choice <= 4
    ensures q.ListUsers? || q.ListPrograms? || q.ListParticipation? || q.ListAttendance?
  {
    if choice == 1 then ListUsers
    else if choice == 2 then ListPrograms
    else if choice == 3 then ListParticipation
    else ListAttendance
  }

  class RecordManager {
    const db: Database
    const sc: Scanner
    /** `Double.parseDouble`, `None` for a `NumberFormatException`. */
    const parseDouble: string -> Option<Amount>

    constructor (db: Database, sc: Scanner, parseDouble: string -> Option<Amount>)
      ensures this.db == db && this.sc == sc && this.parseDouble == parseDouble
    {
      this.db := db;
      this.sc := sc;
      this.parseDouble := parseDouble;
    }

    /** `getDoubleInput` applied to a line: its trimmed value, or the -1.0 sentinel. */
    function AmountInput(line: string): (a: Amount)
      ensures a.Other? ==> parseDouble(Trim(line)) == Some(a)
      ensures parseDouble(Trim(line)).None? ==> a == MinusOne
    {
      parseDouble(Trim(line)).GetOr(MinusOne)
    }

    /** The integer answer on input line `at`. */
    function Int(at: nat): int
    {
      IntInput(sc.input(at))
    }

    /** The amount answer on input line `at`. */
    function Amt(at: nat): Amount
    {
      AmountInput(sc.input(at))
    }

    /** The trimmed text answer on input line `at`. */
    function Field(at: nat): string
    {
      Trim(sc.input(at))
    }

    /**
     * The row `deleteRecord` is asked to delete when its choice is on line `at`; the key follows,
     * one line per column.
     */
    function DeleteTarget(at: nat): Option<Statement>
    {
      if Int(at) == 1 then Some(DeleteProgram(Int(at + 1)))
      else if Int(at) == 2 then Some(DeleteParticipation(Int(at + 1), Int(at + 2)))
      else if Int(at) == 3 then Some(DeleteAttendance(Int(at + 1)))
      else None
    }

    /** How many lines the key of that row takes. */
    function KeyLines(at: nat): nat
    {
      if Int(at) == 2 then 2 else 1
    }

    /** `getIntInput`: reads one line. */
    method GetIntInput() returns (n: int)
      modifies sc`consumed
      ensures n == Int(old(sc.consumed))
      ensures sc.consumed == old(sc.consumed) + 1
    {
      var line := sc.NextLine();
      n := IntInput(line);
    }

    /** `getDoubleInput`: reads one line. */
    method GetDoubleInput() returns (a: Amount)
      modifies sc`consumed
      ensures a == Amt(old(sc.consumed))
      ensures sc.consumed == old(sc.consumed) + 1
    {
      var line := sc.NextLine();
      a := AmountInput(line);
    }

    /** A line read and trimmed. */
    method GetField() returns (s: string)
      modifies sc`consumed
      ensures s == Field(old(sc.consumed))
      ensures sc.consumed == old(sc.consumed) + 1
    {
      var line := sc.NextLine();
      s := Trim(line);
    }

    /**
     * `addProgram`: generates the id, reads the trimmed name and description, and inserts the
     * program; there is no pre-check.
     */
    method AddProgram(r: Replies) returns (outcome: Outcome)
      requires db.conn == Open && db.Valid()
      modifies db`tables, sc`consumed
      ensures db.Valid()
      ensures sc.consumed == old(sc.consumed) + 2
      ensures outcome.Wrote?
      ensures var at, id := old(sc.consumed), NextId(Ids(old(db.tables), ProgramTable), r.idQueryOk);
        Execution(db.tables, outcome.write)
        == Execute(old(db.tables), InsertProgram(id, Program(Field(at), Field(at + 1))), r.writeFault)
    {
      var id := db.GetNextId(ProgramTable, r.idQueryOk);
      var name := GetField();
      var description := GetField();
      var w := db.AddRecord(InsertProgram(id, Program(name, description)), r.writeFault);
      outcome := Wrote(w);
    }

    /**
     * `recordParticipation`: user id, program id, meetings and amount, each aborting the flow on
     * its sentinel; then the duplicate pre-check, and the insert only when it finds no row (a
     * failing pre-check counts as no row).
     */
    method RecordParticipation(r: Replies) returns (outcome: Outcome)
      requires db.conn == Open && db.Valid()
      modifies db`tables, sc`consumed
      ensures db.Valid()
      ensures var at := old(sc.consumed);
        var u, p, m, a := Int(at), Int(at + 1), Int(at + 2), Amt(at + 3);
        && sc.consumed == at + (if u == -1 then 1 else if p == -1 then 2 else if m == -1 then 3 else 4)
        && (outcome.InvalidInput? || outcome.AlreadyRecorded? || outcome.Wrote?)
        && (outcome.InvalidInput? <==> u == -1 || p == -1 || m == -1 || a == MinusOne)
        && (outcome.AlreadyRecorded? <==>
             !outcome.InvalidInput? && r.check == NoFault && (u, p) in old(db.tables.participation))
        && (!outcome.Wrote? ==> db.tables == old(db.tables))
        && (outcome.Wrote? ==>
             Execution(db.tables, outcome.write)
             == Execute(old(db.tables), InsertParticipation(u, p, Participation(m, a)), r.writeFault))
    {
      var userId := GetIntInput();
      if userId == -1 {
        return InvalidInput;
      }
      var programId := GetIntInput();
      if programId == -1 {
        return InvalidInput;
      }
      var meetings := GetIntInput();
      if meetings == -1 {
        return InvalidInput;
      }
      var amount := GetDoubleInput();
      if amount == MinusOne {
        return InvalidInput;
      }
      var recorded := db.Found(ParticipationCheck(userId, programId), r.check);
      LookupFindsKey(db.tables, ParticipationCheck(userId, programId));
      if recorded {
        return AlreadyRecorded;
      }
      var w := db.AddRecord(InsertParticipation(userId, programId, Participation(meetings, amount)), r.writeFault);
      outcome := Wrote(w);
    }

    /**
     * `recordAttendance`: generates the id first, then reads user id and program id (each aborting
     * on its sentinel) and the trimmed date, and inserts without checking that the user or the
     * program exists.
     */
    method RecordAttendance(r: Replies) returns (outcome: Outcome)
      requires db.conn == Open && db.Valid()
      modifies db`tables, sc`consumed
      ensures db.Valid()
      ensures var at, id := old(sc.consumed), NextId(Ids(old(db.tables), AttendanceTable), r.idQueryOk);
        var u, p := Int(at), Int(at + 1);
        && sc.consumed == at + (if u == -1 then 1 else if p == -1 then 2 else 3)
        && (outcome.InvalidInput? || outcome.Wrote?)
        && (outcome.InvalidInput? <==> u == -1 || p == -1)
        && (outcome.InvalidInput? ==> db.tables == old(db.tables))
        && (outcome.Wrote? ==>
             Execution(db.tables, outcome.write)
             == Execute(old(db.tables), InsertAttendance(id, Attendance(u, p, Field(at + 2))), r.writeFault))
    {
      var id := db.GetNextId(AttendanceTable, r.idQueryOk);
      var userId := GetIntInput();
      if userId == -1 {
        return InvalidInput;
      }
      var programId := GetIntInput();
      if programId == -1 {
        return InvalidInput;
      }
      var date := GetField();
      var w := db.AddRecord(InsertAttendance(id, Attendance(userId, programId, date)), r.writeFault);
      outcome := Wrote(w);
    }

    /**
     * `viewRecords`: a choice of 1 to 4 lists the matching table (the user listing without the
     * password column); -1 and any other choice issue no query. Nothing is written.
     */
    method ViewRecords(check: QueryFault) returns (outcome: Outcome)
      requires db.conn == Open
      modifies sc`consumed
      ensures sc.consumed == old(sc.consumed) + 1
      ensures var choice := Int(old(sc.consumed));
        && (outcome.InvalidInput? <==> choice == -1)
        && (outcome.Listed? <==> 1 <= choice <= 4)
        && (outcome.InvalidInput? || outcome.InvalidOption? || outcome.Listed?)
        && (outcome.Listed? ==>
             outcome.rows == if check == NoFault then Some(Select(db.tables, ViewQuery(choice))) else None)
    {
      var choice := GetIntInput();
      if choice == -1 {
        return InvalidInput;
      }
      if !(1 <= choice <= 4) {
        return InvalidOption;
      }
      var ps, rs := db.GetRecords(ViewQuery(choice), check);
      outcome := Listed(rs);
    }

    /**
     * `updateRecord`, program case: the program id is not checked for the sentinel; a program
     * the pre-check does not find ends the flow, otherwise the trimmed new name and description
     * are written.
     */
    method UpdateProgramRow(r: Replies) returns (outcome: Outcome)
      requires db.conn == Open && db.Valid()
      modifies db`tables, sc`consumed
      ensures db.Valid()
      ensures outcome.NotFound? || outcome.Wrote?
      ensures var at := old(sc.consumed);
        && (outcome.NotFound? <==> !(r.check == NoFault && Int(at) in old(db.tables.programs)))
        && (outcome.NotFound? ==> db.tables == old(db.tables) && sc.consumed == at + 1)
        && (outcome.Wrote? ==>
             sc.consumed == at + 3 && Execution(db.tables, outcome.write)
             == Execute(old(db.tables), UpdateProgram(Int(at), Field(at + 1), Field(at + 2)), r.writeFault))
    {
      var programId := GetIntInput();
      var found := db.Found(ProgramById(programId), r.check);
      LookupFindsKey(db.tables, ProgramById(programId));
      if !found {
        return NotFound;
      }
      var name := GetField();
      var description := GetField();
      var w, _ := db.UpdateRecord(UpdateProgram(programId, name, description), r.writeFault);
      outcome := Wrote(w);
    }

    /**
     * `updateRecord`, participation case: neither the key nor the new values are checked for the
     * sentinel, so an unparsable meetings count or amount is written as -1.
     */
    method UpdateParticipationRow(r: Replies) returns (outcome: Outcome)
      requires db.conn == Open && db.Valid()
      modifies db`tables, sc`consumed
      ensures db.Valid()
      ensures outcome.NotFound? || outcome.Wrote?
      ensures var at := old(sc.consumed);
        && (outcome.NotFound? <==> !(r.check == NoFault && (Int(at), Int(at + 1)) in old(db.tables.participation)))
        && (outcome.NotFound? ==> db.tables == old(db.tables) && sc.consumed == at + 2)
        && (outcome.Wrote? ==>
             sc.consumed == at + 4 && Execution(db.tables, outcome.write)
             == Execute(old(db.tables), UpdateParticipation(Int(at), Int(at + 1), Int(at + 2), Amt(at + 3)), r.writeFault))
    {
      var userId := GetIntInput();
      var programId := GetIntInput();
      var found := db.Found(ParticipationByKey(userId, programId), r.check);
      LookupFindsKey(db.tables, ParticipationByKey(userId, programId));
      if !found {
        return NotFound;
      }
      var meetings := GetIntInput();
      var amount := GetDoubleInput();
      var w, _ := db.UpdateRecord(UpdateParticipation(userId, programId, meetings, amount), r.writeFault);
      outcome := Wrote(w);
    }

    /** `updateRecord`: 1 updates a program, 2 a participation row; -1 and other choices write nothing. */
    method UpdateRecord(r: Replies) returns (outcome: Outcome)
      requires db.conn == Open && db.Valid()
      modifies db`tables, sc`consumed
      ensures db.Valid()
      ensures var at := old(sc.consumed);
        && (outcome.InvalidInput? <==> Int(at) == -1)
        && (outcome.InvalidOption? <==> Int(at) !in {-1, 1, 2})
        && (outcome.InvalidInput? || outcome.InvalidOption? ==> db.tables == old(db.tables) && sc.consumed == at + 1)
        && (Int(at) in {1, 2} ==> outcome.NotFound? || outcome.Wrote?)
        && (outcome.NotFound? ==> db.tables == old(db.tables))
        && (Int(at) == 1 ==>
             && (outcome.NotFound? <==> !(r.check == NoFault && Int(at + 1) in old(db.tables.programs)))
             && sc.consumed == at + (if outcome.NotFound? then 2 else 4))
        && (Int(at) == 2 ==>
             && (outcome.NotFound? <==>
                  !(r.check == NoFault && (Int(at + 1), Int(at + 2)) in old(db.tables.participation)))
             && sc.consumed == at + (if outcome.NotFound? then 3 else 5))
        && (Int(at) == 1 && outcome.Wrote? ==>
             Execution(db.tables, outcome.write)
             == Execute(old(db.tables), UpdateProgram(Int(at + 1), Field(at + 2), Field(at + 3)), r.writeFault))
        && (Int(at) == 2 && outcome.Wrote? ==>
             Execution(db.tables, outcome.write)
             == Execute(old(db.tables), UpdateParticipation(Int(at + 1), Int(at + 2), Int(at + 3), Amt(at + 4)), r.writeFault))
    {
      var choice := GetIntInput();
      if choice == -1 {
        return InvalidInput;
      }
      if choice == 1 {
        outcome := UpdateProgramRow(r);
      } else if choice == 2 {
        outcome := UpdateParticipationRow(r);
      } else {
        outcome := InvalidOption;
      }
    }

    /**
     * The tail of each `deleteRecord` case: the existence pre-check on the row `st` addresses
     * (a failing pre-check counts as not found), then the confirmation, whose raw line (not
     * trimmed) must equal `y` ignoring case; only then is the row deleted.
     */
    method DeleteIfConfirmed(st: Statement, r: Replies) returns (outcome: Outcome)
      requires st.DeleteProgram? || st.DeleteParticipation? || st.DeleteAttendance?
      requires db.conn == Open && db.Valid()
      modifies db`tables, sc`consumed
      ensures db.Valid()
      ensures outcome.NotFound? || outcome.Cancelled? || outcome.Wrote?
      ensures outcome.NotFound? <==> !(r.check == NoFault && HasRow(old(db.tables), st))
      ensures outcome.NotFound? ==> sc.consumed == old(sc.consumed)
      ensures !outcome.NotFound? ==> sc.consumed == old(sc.consumed) + 1
      ensures outcome.Wrote? <==> !outcome.NotFound? && EqualsIgnoreCase(sc.input(old(sc.consumed)), "y")
      ensures !outcome.Wrote? ==> db.tables == old(db.tables)
      ensures outcome.Wrote? ==> Execution(db.tables, outcome.write) == Execute(old(db.tables), st, r.writeFault)
    {
      var q := match st
        case DeleteProgram(id) => ProgramById(id)
        case DeleteParticipation(u, p) => ParticipationByKey(u, p)
        case DeleteAttendance(id) => AttendanceById(id);
      var found := db.Found(q, r.check);
      LookupFindsKey(db.tables, q);
      if !found {
        return NotFound;
      }
      var answer := sc.NextLine();
      if !EqualsIgnoreCase(answer, "y") {
        return Cancelled;
      }
      var w, _ := db.DeleteRecord(st, r.writeFault);
      outcome := Wrote(w);
    }

    /**
     * `deleteRecord`: 1 deletes a program, 2 a participation row, 3 an attendance row, each after
     * an existence pre-check and a confirmation; -1 and other choices write nothing.
     */
    method DeleteRecord(r: Replies) returns (outcome: Outcome)
      requires db.conn == Open && db.Valid()
      modifies db`tables, sc`consumed
      ensures db.Valid()
      ensures var at := old(sc.consumed);
        (outcome.InvalidInput? <==> Int(at) == -1)
        && (outcome.InvalidOption? <==> Int(at) !in {-1, 1, 2, 3})
        && (outcome.InvalidInput? || outcome.InvalidOption? ==> sc.consumed == at + 1)
      ensures !outcome.Wrote? ==> db.tables == old(db.tables)
      ensures var at := old(sc.consumed);
        outcome.NotFound? <==> DeleteTarget(at).Some? && !(r.check == NoFault && HasRow(old(db.tables), DeleteTarget(at).value))
      ensures outcome.NotFound? ==> sc.consumed == old(sc.consumed) + 1 + KeyLines(old(sc.consumed))
      ensures var at := old(sc.consumed);
        outcome.Cancelled? || outcome.Wrote? ==>
          DeleteTarget(at).Some? && sc.consumed == at + 2 + KeyLines(at)
          && (outcome.Wrote? <==> EqualsIgnoreCase(sc.input(at + 1 + KeyLines(at)), "y"))
      ensures var at := old(sc.consumed);
        DeleteTarget(at).Some? ==>
          && (outcome.NotFound? || outcome.Cancelled? || outcome.Wrote?)
          && (outcome.Wrote? <==>
               && r.check == NoFault && HasRow(old(db.tables), DeleteTarget(at).value)
               && EqualsIgnoreCase(sc.input(at + 1 + KeyLines(at)), "y"))
      ensures outcome.Wrote? ==>
        Execution(db.tables, outcome.write)
        == Execute(old(db.tables), DeleteTarget(old(sc.consumed)).value, r.writeFault)
    {
      var choice := GetIntInput();
      if choice == -1 {
        return InvalidInput;
      }
      var st;
      if choice == 1 {
        var programId := GetIntInput();
        st := DeleteProgram(programId);
      } else if choice == 2 {
        var userId := GetIntInput();
        var programId := GetIntInput();
        st := DeleteParticipation(userId, programId);
      } else if choice == 3 {
        var attendanceId := GetIntInput();
        st := DeleteAttendance(attendanceId);
      } else {
        return InvalidOption;
      }
      outcome := DeleteIfConfirmed(st, r);
    }
  }
}
