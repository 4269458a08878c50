/**
 * The application loop (`main`): the session fields, the menu shown before and after login, the
 * login and logout transitions and the failed-attempt counter that ends the program at three.
 */
module App {
  import opened Wrappers
  import opened Text
  import opened Schema
  import opened Gateway
  import opened Console
  import opened Auth
  import opened Records

  /** The menu's own `getIntInput`: the line as typed, not trimmed, or -1 when it does not parse. */
  function MenuChoice(line: string): (choice: int)
    ensures IsInt32(choice)
    ensures choice != -1 ==> ParseInt(line) == Some(choice)
    ensures ParseInt(line).None? ==> choice == -1
  {
    ParseInt(line).GetOr(-1)
  }

  /**
   * The menu is stricter than the record prompts: a choice it accepts reads the same through the
   * trimming `getIntInput`, but a choice typed with a blank around it is rejected.
   */
  lemma MenuChoiceStricterThanIntInput(line: string)
    ensures MenuChoice(line) != -1 ==> IntInput(line) == MenuChoice(line)
    ensures |line| > 0 && (IsTrimmable(line[0]) || IsTrimmable(line[|line| - 1])) ==> MenuChoice(line) == -1
  {
    if ParseInt(line).Some? {
      ParseAcceptsOnlyTrimmed(line);
    }
  }

  class Session {
    var loggedIn: bool
    var loggedUserId: int
    var loggedUserName: string
    var loginAttempts: int
    /** False once `System.exit` has run. */
    var running: bool

    const db: Database
    const sc: Scanner
    const auth: AuthManager
    const records: RecordManager

    /**
     * The managers share the one database and scanner; a logged-in session has a clean counter,
     * a logged-out one no user; a running session has fewer than three failed attempts.
     */
    ghost predicate Valid()
      reads this, db
    {
      auth.db == db && auth.sc == sc && records.db == db && records.sc == sc
      && db.conn == Open && db.Valid()
      && (loggedIn ==> loginAttempts == 0)
      && (!loggedIn ==> loggedUserId == -1 && loggedUserName == "")
      && 0 <= loginAttempts && (running ==> loginAttempts < 3)
    }

    /** The static initialisers, after `connectDB` opened the database. */
    constructor (db: Database, sc: Scanner, auth: AuthManager, records: RecordManager)
      requires auth.db == db && auth.sc == sc && records.db == db && records.sc == sc
      requires db.conn == Open && db.Valid()
      ensures Valid() && running
      ensures !loggedIn && loggedUserId == -1 && loggedUserName == "" && loginAttempts == 0
      ensures this.db == db && this.sc == sc && this.auth == auth && this.records == records
    {
      this.db := db;
      this.sc := sc;
      this.auth := auth;
      this.records := records;
      loggedIn := false;
      loggedUserId := -1;
      loggedUserName := "";
      loginAttempts := 0;
      running := true;
    }

    /**
     * Menu option 2 before login: a successful login stores the user and clears the counter; a
     * failed one stores the counter `handleLogin` returns, and three failures end the program.
     */
    method LogIn(fault: QueryFault)
      requires Valid() && running && !loggedIn
      modifies this, sc`consumed
      ensures Valid()
      ensures sc.consumed == old(sc.consumed) + 2
      ensures var result := Login(db.tables.users, Trim(Line(sc.input, old(sc.consumed))),
        auth.Hash(Trim(Line(sc.input, old(sc.consumed) + 1))), old(loginAttempts), fault);
        && (result.success ==>
             loggedIn && loggedUserId == result.userId && loggedUserName == result.userName
             && loginAttempts == 0 && running)
        && (!result.success ==>
             !loggedIn && loggedUserId == -1 && loggedUserName == ""
             && loginAttempts == old(loginAttempts) + 1 && (running <==> loginAttempts < 3))
    {
      var result := auth.HandleLogin(loginAttempts, fault);
      if result.success {
        loggedIn := true;
        loggedUserId := result.userId;
        loggedUserName := result.userName;
        loginAttempts := 0;
      } else {
        loginAttempts := result.loginAttempts;
        if loginAttempts >= 3 {
          running := false;
        }
      }
    }

    /** `showPreLoginMenu`: 1 registers, 2 logs in, 3 exits; any other choice changes nothing. */
    method PreLoginMenu(r: Replies)
      requires Valid() && running && !loggedIn
      modifies this, db`tables, sc`consumed
      ensures Valid()
      ensures var choice := MenuChoice(Line(sc.input, old(sc.consumed)));
        && (choice != 1 ==> db.tables == old(db.tables))
        && (choice != 2 ==>
             !loggedIn && loginAttempts == old(loginAttempts) && (running <==> choice != 3))
        && (choice == 1 ==> sc.consumed == old(sc.consumed) + 6)
        && (choice == 2 ==> sc.consumed == old(sc.consumed) + 3)
        && (choice !in {1, 2} ==> sc.consumed == old(sc.consumed) + 1)
      ensures var result := Login(db.tables.users, Trim(Line(sc.input, old(sc.consumed) + 1)),
        auth.Hash(Trim(Line(sc.input, old(sc.consumed) + 2))), old(loginAttempts), r.check);
        MenuChoice(Line(sc.input, old(sc.consumed))) == 2 ==>
          && (loggedIn <==> result.success)
          && (result.success ==> loggedUserId == result.userId && loggedUserName == result.userName)
          && loginAttempts == (if result.success then 0 else old(loginAttempts) + 1)
          && (running <==> loginAttempts < 3)
    {
      var line := sc.NextLine();
      var choice := MenuChoice(line);
      if choice == 1 {
        var _ := auth.HandleRegistration(r);
      } else if choice == 2 {
        LogIn(r.check);
      } else if choice == 3 {
        running := false;
      }
    }

    /**
     * `showMainMenu`: options 1 to 6 run a record flow and leave the session as it is; 7 logs out,
     * clearing the user but not the counter; any other choice changes nothing.
     */
    method MainMenu(r: Replies)
      requires Valid() && running && loggedIn
      modifies this, db`tables, sc`consumed
      ensures Valid() && running
      ensures loginAttempts == old(loginAttempts)
      ensures var choice := MenuChoice(Line(sc.input, old(sc.consumed)));
        && (1 <= choice <= 6 ==>
             loggedIn && loggedUserId == old(loggedUserId) && loggedUserName == old(loggedUserName))
        && (choice == 7 ==> !loggedIn && loggedUserId == -1 && loggedUserName == "")
        && (!(1 <= choice <= 6) ==> db.tables == old(db.tables) && sc.consumed == old(sc.consumed) + 1)
        && (!(1 <= choice <= 7) ==>
             loggedIn && loggedUserId == old(loggedUserId) && loggedUserName == old(loggedUserName))
    {
      var line := sc.NextLine();
      var choice := MenuChoice(line);
      if choice == 1 {
        var _ := records.AddProgram(r);
      } else if choice == 2 {
        var _ := records.RecordParticipation(r);
      } else if choice == 3 {
        var _ := records.RecordAttendance(r);
      } else if choice == 4 {
        var _ := records.ViewRecords(r.check);
      } else if choice == 5 {
        var _ := records.UpdateRecord(r);
      } else if choice == 6 {
        var _ := records.DeleteRecord(r);
      } else if choice == 7 {
        loggedIn := false;
        loggedUserId := -1;
        loggedUserName := "";
      }
    }

    /**
     * The main loop, one menu per round, for as many rounds as there are engine answers or until
     * the program exits; which menu is shown depends only on `loggedIn`.
     */
    method Run(replies: seq<Replies>) returns (rounds: nat)
      requires Valid() && running
      modifies this, db`tables, sc`consumed
      ensures Valid()
      ensures rounds <= |replies|
      ensures rounds < |replies| ==> !running
      ensures !running ==> !loggedIn
    {
      rounds := 0;
      while running && rounds < |replies|
        invariant Valid()
        invariant rounds <= |replies|
        invariant !running ==> !loggedIn
        decreases |replies| - rounds
      {
        if !loggedIn {
          PreLoginMenu(replies[rounds]);
        } else {
          MainMenu(replies[rounds]);
        }
        rounds := rounds + 1;
      }
    }
  }
}
