/**
 * Credentials (lib/auth.ts): passwords are stored as the lower-case hex
 * of the SHA-256 digest of the password followed by a fixed salt; sign-up
 * refuses a taken username and inserts one row; sign-in looks up the row
 * matching both the username and the hash. SHA-256 of the UTF-8 encoding
 * is a parameter (`Hasher`), the users table an in-memory sequence.
 */
module Auth {
  import opened Common
  import opened JsString

  // ---------------------------------------------------------------------
  // Hex encoding of the digest
  // ---------------------------------------------------------------------

  type Byte = b: nat | b < 256

  /** A SHA-256 digest: 32 bytes. */
  type Digest = d: seq<Byte> | |d| == 32 witness seq(32, _ => 0)

  /** SHA-256 of the UTF-8 encoding of a string. */
  type Hasher = string -> Digest

  const Salt: string := "stackit_salt"

  /** `b.toString(16)` for a byte: one digit below 16, two from 16 on. */
  lemma RadixOfByte(b: Byte)
    ensures ToRadixString(b, 16) == if b < 16 then [Digit(b)] else [Digit(b / 16), Digit(b % 16)]
  {
    if b >= 16 {
      DivBounds(b, 16);
      assert b / 16 < 16;
    }
  }

  /** `b.toString(16).padStart(2, "0")`: the high then the low hex digit of the byte. */
  function ByteHex(b: Byte): (h: string)
    ensures h == [Digit(b / 16), Digit(b % 16)]
  {
    RadixOfByte(b);
    PadStart(ToRadixString(b, 16), 2, '0')
  }

  /** `hashArray.map(...).join("")`. */
  function Hex(bytes: seq<Byte>): (s: string)
    ensures |s| == 2 * |bytes|
  {
    if bytes == [] then [] else ByteHex(bytes[0]) + Hex(bytes[1..])
  }

  /** Lower-case hex digits only. */
  predicate IsLowerHex(s: string) {
    forall k :: 0 <= k < |s| ==> IsDigitIn(s[k], 16)
  }

  lemma ByteHexIsLowerHex(b: Byte)
    ensures IsLowerHex(ByteHex(b))
  {
    var h := ByteHex(b);
    assert b / 16 < 16 && b % 16 < 16;
    assert IsDigitIn(h[0], 16) && IsDigitIn(h[1], 16);
  }

  lemma {:induction false} HexIsLowerHex(bytes: seq<Byte>)
    ensures IsLowerHex(Hex(bytes))
  {
    if bytes != [] {
      HexIsLowerHex(bytes[1..]);
      ByteHexIsLowerHex(bytes[0]);
      var h, t := ByteHex(bytes[0]), Hex(bytes[1..]);
      assert Hex(bytes) == h + t;
      forall k | 0 <= k < |h + t| ensures IsDigitIn((h + t)[k], 16) {
        if k < 2 { assert (h + t)[k] == h[k]; } else { assert (h + t)[k] == t[k - 2]; }
      }
    }
  }

  /** Reads pairs of lower-case hex digits back into bytes. */
  function Unhex(s: string): Option<seq<Byte>>
    decreases |s|
  {
    if s == [] then Some([])
    else if |s| == 1 || !IsDigitIn(s[0], 16) || !IsDigitIn(s[1], 16) then None
    else match Unhex(s[2..])
      case None => None
      case Some(rest) => Some([DigitValue(s[0]) * 16 + DigitValue(s[1])] + rest)
  }

  lemma HexCons(b: Byte, rest: seq<Byte>)
    ensures Hex([b] + rest) == ByteHex(b) + Hex(rest)
  {
    assert ([b] + rest)[1..] == rest;
  }

  lemma UnhexCons(s: string)
    requires |s| >= 2 && IsDigitIn(s[0], 16) && IsDigitIn(s[1], 16) && Unhex(s[2..]).Some?
    ensures Unhex(s) == Some([DigitValue(s[0]) * 16 + DigitValue(s[1])] + Unhex(s[2..]).value)
  {
  }

  /** The two digits of a byte read back as the byte. */
  lemma ByteHexValue(b: Byte)
    ensures DigitValue(ByteHex(b)[0]) * 16 + DigitValue(ByteHex(b)[1]) == b
  {
    DivMod(b, 16);
  }

  /** The encoding is decodable: decoding gives back the digest bytes. */
  lemma {:induction false} UnhexHex(bytes: seq<Byte>)
    ensures Unhex(Hex(bytes)) == Some(bytes)
  {
    if bytes != [] {
      var b, tail := bytes[0], bytes[1..];
      assert bytes == [b] + tail;
      HexCons(b, tail);
      ByteHexIsLowerHex(b);
      var s := Hex(bytes);
      assert s[2..] == Hex(tail);
      UnhexHex(tail);
      UnhexCons(s);
      assert s[0] == ByteHex(b)[0] && s[1] == ByteHex(b)[1];
      ByteHexValue(b);
    }
  }

  lemma DigitOfValue(c: char)
    requires IsDigit36(c)
    ensures Digit(DigitValue(c)) == c
  {
  }

  lemma HexPair(d0: nat, d1: nat)
    requires d0 < 16 && d1 < 16
    ensures (d0 * 16 + d1) / 16 == d0 && (d0 * 16 + d1) % 16 == d1
  {
  }

  lemma SplitTwo(s: string)
    requires |s| >= 2
    ensures s == [s[0], s[1]] + s[2..]
  {
  }

  /** Only the encoding of some bytes decodes: decoding then encoding gives the string back. */
  lemma {:induction false} HexUnhex(s: string)
    requires Unhex(s).Some?
    ensures Hex(Unhex(s).value) == s
    decreases |s|
  {
    if s != [] {
      var rest := Unhex(s[2..]).value;
      HexUnhex(s[2..]);
      var d0, d1 := DigitValue(s[0]), DigitValue(s[1]);
      HexPair(d0, d1);
      var b: Byte := d0 * 16 + d1;
      UnhexCons(s);
      DigitOfValue(s[0]);
      DigitOfValue(s[1]);
      HexCons(b, rest);
      SplitTwo(s);
    }
  }

  /** Different digests never share an encoding. */
  lemma HexInjective(a: seq<Byte>, b: seq<Byte>)
    ensures Hex(a) == Hex(b) <==> a == b
  {
    UnhexHex(a);
    UnhexHex(b);
  }

  /** `hashPassword(password)`: the hex of the digest of password and salt. */
  function HashPassword(hash: Hasher, password: string): (h: string)
    ensures |h| == 64 && IsLowerHex(h)
  {
    HexIsLowerHex(hash(password + Salt));
    Hex(hash(password + Salt))
  }

  /** Two passwords hash alike exactly when their salted digests are equal. */
  lemma HashPasswordCompares(hash: Hasher, p: string, q: string)
    ensures HashPassword(hash, p) == HashPassword(hash, q) <==> hash(p + Salt) == hash(q + Salt)
  {
    HexInjective(hash(p + Salt), hash(q + Salt));
  }

  // ---------------------------------------------------------------------
  // The users table
  // ---------------------------------------------------------------------

  /** A row of the `users` table. */
  datatype UserRow = UserRow(id: nat, username: string, passwordHash: string, createdAt: int)

  datatype AuthError = UsernameExists | InvalidCredentials | StoreError

  /** The message of each error. */
  function Message(e: AuthError): string {
    match e
    case UsernameExists => "Username already exists"
    case InvalidCredentials => "Invalid username or password"
    case StoreError => "database error"
  }

  /** `{ user, error: null }` or `{ user: null, error }`. */
  datatype AuthResult = Ok(user: UserRow) | Err(error: AuthError)

  /** The rows with that username, in table order. */
  function WithUsername(rows: seq<UserRow>, username: string): (r: seq<UserRow>)
    ensures forall k :: 0 <= k < |r| ==> r[k] in rows && r[k].username == username
    ensures forall row :: row in rows && row.username == username ==> row in r
  {
    if rows == [] then []
    else (if rows[0].username == username then [rows[0]] else []) + WithUsername(rows[1..], username)
  }

  /** The rows with that username and that password hash. */
  function WithCredentials(rows: seq<UserRow>, username: string, hash: string): (r: seq<UserRow>)
    ensures forall k :: 0 <= k < |r| ==> r[k] in rows && r[k].username == username && r[k].passwordHash == hash
    ensures forall row :: row in rows && row.username == username && row.passwordHash == hash ==> row in r
  {
    if rows == [] then []
    else
      var head := if rows[0].username == username && rows[0].passwordHash == hash then [rows[0]] else [];
      head + WithCredentials(rows[1..], username, hash)
  }

  /** `.single()`: the row when exactly one matches, nothing otherwise. */
  function Single(matches: seq<UserRow>): (r: Option<UserRow>)
    ensures r.Some? <==> |matches| == 1
    ensures r.Some? ==> r.value == matches[0]
  {
    if |matches| == 1 then Some(matches[0]) else None
  }

  predicate UniqueUsernames(rows: seq<UserRow>) {
    forall j, k :: 0 <= j < k < |rows| ==> rows[j].username != rows[k].username
  }

  predicate UniqueIds(rows: seq<UserRow>) {
    forall j, k :: 0 <= j < k < |rows| ==> rows[j].id != rows[k].id
  }

  /** With unique usernames, at most one row has a given name. */
  lemma {:induction false} AtMostOneWithUsername(rows: seq<UserRow>, username: string)
    requires UniqueUsernames(rows)
    ensures |WithUsername(rows, username)| <= 1
    ensures |WithUsername(rows, username)| == 1 <==> exists row :: row in rows && row.username == username
  {
    if rows != [] {
      assert UniqueUsernames(rows[1..]) by {
        forall j, k | 0 <= j < k < |rows[1..]| ensures rows[1..][j].username != rows[1..][k].username {
          assert rows[1..][j] == rows[j + 1] && rows[1..][k] == rows[k + 1];
        }
      }
      AtMostOneWithUsername(rows[1..], username);
      if rows[0].username == username {
        forall row | row in rows[1..] ensures row.username != username {
          var k :| 0 <= k < |rows[1..]| && rows[1..][k] == row;
          assert rows[k + 1] == row;
        }
      }
    }
  }

  lemma {:induction false} CredentialsWithinUsername(rows: seq<UserRow>, username: string, hash: string)
    ensures |WithCredentials(rows, username, hash)| <= |WithUsername(rows, username)|
  {
    if rows != [] { CredentialsWithinUsername(rows[1..], username, hash); }
  }

  /**
   * `signIn(username, password)`: succeeds with the row matching both the
   * username and the password's hash; every failure, a failed query
   * included, is the one message that does not say which field was wrong.
   */
  function SignIn(rows: seq<UserRow>, hash: Hasher, username: string, password: string,
                  queryFails: bool): (r: AuthResult)
    ensures r.Err? ==> r.error == InvalidCredentials && Message(r.error) == "Invalid username or password"
    ensures r.Ok? ==>
      r.user in rows && r.user.username == username && r.user.passwordHash == HashPassword(hash, password)
  {
    if queryFails then Err(InvalidCredentials)
    else match Single(WithCredentials(rows, username, HashPassword(hash, password)))
      case None => Err(InvalidCredentials)
      case Some(user) => Ok(user)
  }

  /** With unique usernames, sign-in succeeds exactly when some row matches both fields. */
  lemma SignInSucceedsIff(rows: seq<UserRow>, hash: Hasher, username: string, password: string)
    requires UniqueUsernames(rows)
    ensures SignIn(rows, hash, username, password, false).Ok? <==>
      exists row :: row in rows && row.username == username && row.passwordHash == HashPassword(hash, password)
  {
    var h := HashPassword(hash, password);
    AtMostOneWithUsername(rows, username);
    CredentialsWithinUsername(rows, username, h);
    if exists row :: row in rows && row.username == username && row.passwordHash == h {
      var row :| row in rows && row.username == username && row.passwordHash == h;
      assert row in WithCredentials(rows, username, h);
    }
  }

  lemma {:induction false} WithCredentialsAppend(a: seq<UserRow>, b: seq<UserRow>, username: string, hash: string)
    ensures WithCredentials(a + b, username, hash) == WithCredentials(a, username, hash) + WithCredentials(b, username, hash)
  {
    if a != [] {
      assert (a + b)[1..] == a[1..] + b;
      WithCredentialsAppend(a[1..], b, username, hash);
    } else {
      assert a + b == b;
    }
  }

  lemma {:induction false} NoCredentialsWithoutUsername(rows: seq<UserRow>, username: string, hash: string)
    requires forall row :: row in rows ==> row.username != username
    ensures WithCredentials(rows, username, hash) == []
  {
    if rows != [] {
      assert rows[0] in rows;
      assert forall row :: row in rows[1..] ==> row in rows;
      NoCredentialsWithoutUsername(rows[1..], username, hash);
    }
  }

  /** The row a successful sign-up appends, for a fresh username, is what sign-in then returns. */
  lemma SignInAfterSignUp(rows: seq<UserRow>, hash: Hasher, username: string, password: string,
                          id: nat, now: int)
    requires forall row :: row in rows ==> row.username != username
    ensures var row := UserRow(id, username, HashPassword(hash, password), now);
      SignIn(rows + [row], hash, username, password, false) == Ok(row)
  {
    var row := UserRow(id, username, HashPassword(hash, password), now);
    var h := HashPassword(hash, password);
    WithCredentialsAppend(rows, [row], username, h);
    NoCredentialsWithoutUsername(rows, username, h);
    assert WithCredentials([row], username, h) == [row];
  }

  /** Appending a row with a fresh username and a fresh id keeps both unique. */
  lemma AppendFresh(rows: seq<UserRow>, row: UserRow, nextId: nat)
    requires UniqueUsernames(rows) && UniqueIds(rows)
    requires forall k :: 0 <= k < |rows| ==> rows[k].id < nextId
    requires forall r :: r in rows ==> r.username != row.username
    requires row.id == nextId
    ensures UniqueUsernames(rows + [row]) && UniqueIds(rows + [row])
    ensures forall k :: 0 <= k < |rows + [row]| ==> (rows + [row])[k].id < nextId + 1
  {
    var all := rows + [row];
    forall j, k | 0 <= j < k < |all| ensures all[j].username != all[k].username && all[j].id != all[k].id {
      assert all[j] == rows[j];
      if k == |rows| {
        assert rows[j] in rows;
      } else {
        assert all[k] == rows[k];
      }
    }
  }

  /**
   * The `users` table. Ids come from `nextId`, standing for the
   * database's generated key; the creation time is passed in as `now`.
   */
  class UserTable {
    var rows: seq<UserRow>
    var nextId: nat

    ghost predicate Valid()
      reads this
    {
      UniqueUsernames(rows) && UniqueIds(rows) && forall k :: 0 <= k < |rows| ==> rows[k].id < nextId
    }

    constructor ()
      ensures Valid() && rows == [] && nextId == 0
    {
      rows := [];
      nextId := 0;
    }

    /**
     * `signUp(username, password)`: a taken username is refused and the
     * table left as it is; otherwise one row with the username and the
     * password's hash is inserted and returned. A failed insert leaves the
     * table unchanged and is returned as an error, never thrown.
     */
    method SignUp(hash: Hasher, username: string, password: string, now: int, insertFails: bool)
      returns (r: AuthResult)
      requires Valid()
      modifies this
      ensures Valid()
      ensures (exists row :: row in old(rows) && row.username == username) ==>
        r == Err(UsernameExists) && Message(r.error) == "Username already exists"
        && rows == old(rows) && nextId == old(nextId)
      ensures (forall row :: row in old(rows) ==> row.username != username) && insertFails ==>
        r == Err(StoreError) && rows == old(rows) && nextId == old(nextId)
      ensures (forall row :: row in old(rows) ==> row.username != username) && !insertFails ==>
        r == Ok(UserRow(old(nextId), username, HashPassword(hash, password), now))
        && rows == old(rows) + [r.user] && nextId == old(nextId) + 1
    {
      AtMostOneWithUsername(rows, username);
      var existing := Single(WithUsername(rows, username));
      if existing.Some? {
        return Err(UsernameExists);
      }
      var hashed := HashPassword(hash, password);
      if insertFails {
        return Err(StoreError);
      }
      var row := UserRow(nextId, username, hashed, now);
      AppendFresh(rows, row, nextId);
      rows := rows + [row];
      nextId := nextId + 1;
      r := Ok(row);
    }
  }
}
