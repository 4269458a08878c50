/**
 * Registration, login and password hashing (`AuthManager`). SHA-256 itself is not modelled: the
 * manager is given the digest function, and only the hex encoding of its 32 bytes is.
 */
module Auth {
  import opened Wrappers
  import opened Text
  import opened Schema
  import opened Gateway
  import opened Console

  /** A digest byte, as the unsigned value `%02x` prints for a (signed) Java `byte`. */
  newtype byte = x: int | 0 <= x < 256

  /** A SHA-256 digest has 32 bytes. */
  const DigestLength := 32

  type Digest = d: seq<byte> | |d| == DigestLength witness seq(32, _ => 0)

  const HexDigits := "0123456789abcdef"

  predicate IsHexDigit(c: char)
  {
    '0' <= c <= '9' || 'a' <= c <= 'f'
  }

  /** `String.format("%02x", b)`: the high and the low four bits as lower-case hex digits. */
  function HexByte(b: byte): (h: string)
    ensures |h| == 2 && IsHexDigit(h[0]) && IsHexDigit(h[1])
  {
    [HexDigits[b as int / 16], HexDigits[b as int % 16]]
  }

  /** The hex encoding of `d`: the digits of each byte, in byte order. */
  function HexEncode(d: seq<byte>): (h: string)
    ensures |h| == 2 * |d|
  {
    if d == [] then [] else HexEncode(d[..|d| - 1]) + HexByte(d[|d| - 1])
  }

  /** Every character of `h` is a lower-case hex digit. */
  predicate AllHex(h: string)
  {
    forall i :: 0 <= i < |h| ==> IsHexDigit(h[i])
  }

  /** The encoding uses only the sixteen lower-case hex digits. */
  lemma {:induction false} HexEncodeDigits(d: seq<byte>)
    ensures AllHex(HexEncode(d))
  {
    if d != [] {
      HexEncodeDigits(d[..|d| - 1]);
    }
  }

  /** Characters `2i` and `2i + 1` of the encoding are the digits of byte `i`. */
  lemma {:induction false} HexEncodeAt(d: seq<byte>, i: nat)
    requires i < |d|
    ensures HexEncode(d)[2 * i..2 * i + 2] == HexByte(d[i])
  {
    var prefix := d[..|d| - 1];
    if i < |d| - 1 {
      HexEncodeAt(prefix, i);
      assert HexEncode(d)[2 * i..2 * i + 2] == HexEncode(prefix)[2 * i..2 * i + 2];
    }
  }

  /** The value of one hex digit (anything else reads as zero). */
  function HexValue(c: char): (v: nat)
    ensures v < 16
  {
    if '0' <= c <= '9' then (c - '0') as nat else if 'a' <= c <= 'f' then (c - 'a') as nat + 10 else 0
  }

  lemma HexValueOfDigit(v: nat)
    requires v < 16
    ensures IsHexDigit(HexDigits[v]) && HexValue(HexDigits[v]) == v
  {
  }

  /** The two digits of a byte give the byte back. */
  lemma HexByteValue(b: byte)
    ensures 16 * HexValue(HexByte(b)[0]) + HexValue(HexByte(b)[1]) == b as int
  {
    HexValueOfDigit(b as int / 16);
    HexValueOfDigit(b as int % 16);
  }

  /** Reads a hex string back into bytes, two digits per byte from the right. */
  function HexDecode(h: string): seq<byte>
  {
    if |h| < 2 then []
    else HexDecode(h[..|h| - 2]) + [(16 * HexValue(h[|h| - 2]) + HexValue(h[|h| - 1])) as byte]
  }

  /** Decoding a string followed by the digits of one byte appends that byte. */
  lemma HexDecodeSnoc(h: string, b: byte)
    ensures HexDecode(h + HexByte(b)) == HexDecode(h) + [b]
  {
    var x := HexByte(b);
    assert x == [x[0], x[1]];
    HexDecodePair(h, x[0], x[1]);
    HexByteValue(b);
  }

  /** Decoding a string followed by two more characters appends the byte those two spell. */
  lemma HexDecodePair(h: string, c0: char, c1: char)
    ensures HexDecode(h + [c0, c1]) == HexDecode(h) + [(16 * HexValue(c0) + HexValue(c1)) as byte]
  {
    var g := h + [c0, c1];
    assert g[..|g| - 2] == h && g[|g| - 2] == c0 && g[|g| - 1] == c1;
  }

  /** Encoding one more byte appends its two digits. */
  lemma HexEncodeSnoc(p: seq<byte>, b: byte)
    ensures HexEncode(p + [b]) == HexEncode(p) + HexByte(b)
  {
    var d := p + [b];
    assert d[..|d| - 1] == p && d[|d| - 1] == b;
  }

  /** Hex decoding undoes hex encoding, so no information of the digest is lost. */
  lemma {:induction false} HexRoundTrip(d: seq<byte>)
    ensures HexDecode(HexEncode(d)) == d
  {
    if d != [] {
      var p, b := d[..|d| - 1], d[|d| - 1];
      assert d == p + [b];
      HexRoundTrip(p);
      HexEncodeSnoc(p, b);
      HexDecodeSnoc(HexEncode(p), b);
    }
  }

  /** Different digests never share an encoding. */
  lemma HexEncodeInjective(a: seq<byte>, b: seq<byte>)
    requires HexEncode(a) == HexEncode(b)
    ensures a == b
  {
    HexRoundTrip(a);
    HexRoundTrip(b);
  }

  /** `LoginResult`. */
  datatype LoginResult = LoginResult(success: bool, userId: int, userName: string, loginAttempts: int)

  /** A user row matches a login when both the email and the stored hash are equal. */
  predicate Matches(u: User, email: string, hashed: string)
  {
    u.email == email && u.password == hashed
  }

  /**
   * The answer to a login: the matching user with the counter reset when the lookup runs and
   * finds a row; otherwise a failure that carries the counter plus one.
   */
  function Login(users: map<int, User>, email: string, hashed: string, currentAttempts: int, fault: QueryFault)
    : (r: LoginResult)
    requires UniqueEmails(users)
    ensures r.success <==> fault == NoFault && exists id | id in users :: Matches(users[id], email, hashed)
    ensures r.success ==>
      r.userId in users && Matches(users[r.userId], email, hashed)
      && r.userName == users[r.userId].name && r.loginAttempts == 0
    ensures !r.success ==> r == LoginResult(false, -1, "", currentAttempts + 1)
  {
    if fault == NoFault && exists id | id in users :: Matches(users[id], email, hashed) then
      var id :| id in users && Matches(users[id], email, hashed);
      LoginResult(true, id, users[id].name, 0)
    else
      LoginResult(false, -1, "", currentAttempts + 1)
  }

  /** A successful login names the one user holding that email. */
  lemma LoginFindsTheEmailOwner(users: map<int, User>, email: string, hashed: string, n: int, id: int)
    requires UniqueEmails(users)
    requires id in users && users[id].email == email
    requires Login(users, email, hashed, n, NoFault).success
    ensures Login(users, email, hashed, n, NoFault).userId == id
  {
  }

  /** A row of the login lookup is the id and name of the one user the login finds. */
  lemma LoginRow(users: map<int, User>, email: string, hashed: string, n: int, row: seq<Value>)
    requires UniqueEmails(users)
    requires row in Select(Empty.(users := users), LoginLookup(email, hashed))
    ensures var r := Login(users, email, hashed, n, NoFault);
      r.success && row == [IntVal(r.userId), TextVal(r.userName)]
  {
    var id :| id in users && Matches(users[id], email, hashed) && row == [IntVal(id), TextVal(users[id].name)];
  }

  /** The login lookup returns no row exactly when no user matches. */
  lemma LoginNoRow(users: map<int, User>, email: string, hashed: string)
    ensures Select(Empty.(users := users), LoginLookup(email, hashed)) == {}
      <==> !exists id | id in users :: Matches(users[id], email, hashed)
  {
    var t := Empty.(users := users);
    if id :| id in users && Matches(users[id], email, hashed) {
      assert [IntVal(id), TextVal(users[id].name)] in Select(t, LoginLookup(email, hashed));
    }
  }

  /** What `handleRegistration` ends with. */
  datatype Registration = EmailTaken | Attempted(userId: int, write: WriteOutcome)

  class AuthManager {
    const db: Database
    const sc: Scanner
    /** SHA-256 of a password's UTF-8 bytes. */
    const digest: string -> Digest

    constructor (db: Database, sc: Scanner, digest: string -> Digest)
      ensures this.db == db && this.sc == sc && this.digest == digest
    {
      this.db := db;
      this.sc := sc;
      this.digest := digest;
    }

    /** The stored form of a password: the hex encoding of its digest. */
    function Hash(password: string): (h: string)
    {
      HexEncode(digest(password))
    }

    /** Every stored hash is 64 lower-case hex digits, and equal passwords hash equally. */
    lemma HashShape(p: string, q: string)
      ensures |Hash(p)| == 2 * DigestLength
      ensures AllHex(Hash(p))
      ensures p == q ==> Hash(p) == Hash(q)
    {
      HexEncodeDigits(digest(p));
    }

    /** `hashPassword`: appends the two hex digits of every digest byte, in order. */
    method HashPassword(password: string) returns (h: string)
      ensures h == Hash(password)
    {
      var bytes := digest(password);
      h := "";
      for i := 0 to |bytes|
        invariant h == HexEncode(bytes[..i])
      {
        assert bytes[..i + 1][..i] == bytes[..i];
        h := h + HexByte(bytes[i]);
      }
      assert bytes[..|bytes|] == bytes;
    }

    /** The user `handleRegistration` builds from the five lines typed from position `at` on. */
    function NewUser(at: nat): User
    {
      User(Trim(Line(sc.input, at)), Trim(Line(sc.input, at + 1)), Trim(Line(sc.input, at + 2)),
        Trim(Line(sc.input, at + 3)), Hash(Trim(Line(sc.input, at + 4))))
    }

    /** The five prompts of `handleRegistration`, each line trimmed, the password hashed. */
    method ReadUser() returns (user: User)
      modifies sc`consumed
      ensures user == NewUser(old(sc.consumed))
      ensures sc.consumed == old(sc.consumed) + 5
    {
      ghost var at := sc.consumed;
      var name := sc.NextTrimmed();
      var gender := sc.NextTrimmed();
      var year := sc.NextTrimmed();
      var email := sc.NextTrimmed();
      var password := sc.NextTrimmed();
      var hashed := HashPassword(password);
      user := User(name, gender, year, email, hashed);
      assert user == NewUser(at);
    }

    /**
     * `handleRegistration`: generates the id, reads and trims five lines, hashes the password,
     * stops if the email check finds a row, and otherwise inserts the user.
     */
    method HandleRegistration(r: Replies) returns (outcome: Registration)
      requires db.conn == Open && db.Valid()
      modifies db`tables, sc`consumed
      ensures db.Valid()
      ensures sc.consumed == old(sc.consumed) + 5
      ensures outcome.EmailTaken? <==>
        r.check == NoFault && EmailRegistered(old(db.tables.users), NewUser(old(sc.consumed)).email)
      ensures outcome.EmailTaken? ==> db.tables == old(db.tables)
      ensures outcome.Attempted? ==>
        outcome.userId == NextId(Ids(old(db.tables), UserTable), r.idQueryOk)
        && Execution(db.tables, outcome.write)
           == Execute(old(db.tables), InsertUser(outcome.userId, NewUser(old(sc.consumed))), r.writeFault)
    {
      var userId := db.GetNextId(UserTable, r.idQueryOk);
      var user := ReadUser();
      var taken := db.Found(EmailCheck(user.email), r.check);
      LookupFindsKey(db.tables, EmailCheck(user.email));
      if taken {
        return EmailTaken;
      }
      var w := db.AddRecord(InsertUser(userId, user), r.writeFault);
      outcome := Attempted(userId, w);
    }

    /**
     * `handleLogin`: reads and trims the email and the password, and looks the pair up with the
     * password hashed; the tables are only read.
     */
    method HandleLogin(currentAttempts: int, fault: QueryFault) returns (result: LoginResult)
      requires db.conn == Open && db.Valid()
      modifies sc`consumed
      ensures sc.consumed == old(sc.consumed) + 2
      ensures result == Login(db.tables.users, Trim(Line(sc.input, old(sc.consumed))),
        Hash(Trim(Line(sc.input, old(sc.consumed) + 1))), currentAttempts, fault)
    {
      var email := sc.NextTrimmed();
      var password := sc.NextTrimmed();
      var hashed := HashPassword(password);
      var ps, rs := db.GetRecords(LoginLookup(email, hashed), fault);
      ghost var users := db.tables.users;
      assert Select(db.tables, LoginLookup(email, hashed)) == Select(Empty.(users := users), LoginLookup(email, hashed));
      if rs.Some? && rs.value != {} {
        var row: seq<Value> :| row in rs.value;
        LoginRow(users, email, hashed, currentAttempts, row);
        result := LoginResult(true, row[0].i, row[1].s, 0);
      } else {
        LoginNoRow(users, email, hashed);
        result := LoginResult(false, -1, "", currentAttempts + 1);
      }
    }
  }
}
