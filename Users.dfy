/**
 * The user repository: the `users` table that holds each account's
 * credentials, its avatar, its current refresh token and whether its email
 * address is confirmed. The table is a sequence of rows in table order.
 */
module Users {
  import opened Wrappers
  import opened Sequences

  /** A row of the `users` table. */
  datatype User = User(
    id: int,
    username: string,
    email: string,
    password: string,
    avatar: Option<string>,
    refreshToken: Option<string>,
    confirmed: bool)

  /** The sign-up request body. */
  datatype UserBody = UserBody(username: string, email: string, password: string)

  datatype UserError =
    | EmailTaken     // the unique constraint on `users.email` rejects the insert
    | UserNotFound   // `get_user_by_email` returned None and the caller used it as a user

  /** The primary key: no two rows share an id. */
  ghost predicate UniqueIds(rows: seq<User>) {
    forall i, j :: 0 <= i < |rows| && 0 <= j < |rows| && rows[i].id == rows[j].id ==> i == j
  }

  /** `email` is declared unique: no two rows share an email. */
  ghost predicate UniqueEmails(rows: seq<User>) {
    forall i, j :: 0 <= i < |rows| && 0 <= j < |rows| && rows[i].email == rows[j].email ==> i == j
  }

  /** The index of the first row with that email. */
  function FindEmail(rows: seq<User>, email: string): (k: Option<nat>)
    ensures k.Some? ==> k.value < |rows| && rows[k.value].email == email
    ensures k.Some? ==> forall j :: 0 <= j < k.value ==> rows[j].email != email
    ensures k.None? ==> forall j :: 0 <= j < |rows| ==> rows[j].email != email
  {
    FirstIndex(rows, (u: User) => u.email == email)
  }

  /** The index of the row with that id. */
  function FindId(rows: seq<User>, id: int): (k: Option<nat>)
    ensures k.Some? ==> k.value < |rows| && rows[k.value].id == id
    ensures k.Some? ==> forall j :: 0 <= j < k.value ==> rows[j].id != id
    ensures k.None? ==> forall j :: 0 <= j < |rows| ==> rows[j].id != id
  {
    FirstIndex(rows, (u: User) => u.id == id)
  }

  /** `get_user_by_email`: the first user with exactly that email, or None. */
  function GetUserByEmail(rows: seq<User>, email: string): (r: Option<User>)
    ensures r.None? <==> forall u :: u in rows ==> u.email != email
    ensures r.Some? ==> r.value in rows && r.value.email == email
    ensures r.Some? ==> exists k :: 0 <= k < |rows| && rows[k] == r.value && forall j :: 0 <= j < k ==> rows[j].email != email
  {
    match FindEmail(rows, email)
    case None => None
    case Some(k) => Some(rows[k])
  }

  /** With unique emails, a stored user is the one found by its email. */
  lemma GetUserByEmailUnique(rows: seq<User>, u: User)
    requires UniqueEmails(rows) && u in rows
    ensures GetUserByEmail(rows, u.email) == Some(u)
  {
  }

  /**
   * `update_token`: the stored user with that id gets exactly `token` as its
   * refresh token; no other row and no other field changes.
   */
  function WithRefreshToken(rows: seq<User>, id: int, token: Option<string>): (r: seq<User>)
    ensures |r| == |rows|
    ensures forall i :: 0 <= i < |rows| ==> r[i].(refreshToken := rows[i].refreshToken) == rows[i]
    ensures forall i :: 0 <= i < |rows| && r[i] != rows[i] ==> rows[i].id == id && r[i].refreshToken == token
    ensures (exists i :: 0 <= i < |rows| && rows[i].id == id) ==> exists i :: 0 <= i < |rows| && rows[i].id == id && r[i].refreshToken == token
  {
    match FindId(rows, id)
    case None => rows
    case Some(k) => rows[k := rows[k].(refreshToken := token)]
  }

  /**
   * `confirmed_email`: the first user with that email becomes confirmed; no
   * other row and no other field changes.
   */
  function WithConfirmed(rows: seq<User>, email: string): (r: seq<User>)
    ensures |r| == |rows|
    ensures forall i :: 0 <= i < |rows| ==> r[i].(confirmed := rows[i].confirmed) == rows[i]
    ensures forall i :: 0 <= i < |rows| && r[i] != rows[i] ==> rows[i].email == email && r[i].confirmed
    ensures (exists i :: 0 <= i < |rows| && rows[i].email == email) ==> exists i :: 0 <= i < |rows| && rows[i].email == email && r[i].confirmed
  {
    match FindEmail(rows, email)
    case None => rows
    case Some(k) => rows[k := rows[k].(confirmed := true)]
  }

  /**
   * `update_avatar`: the first user with that email gets `url` as its avatar;
   * no other row and no other field changes.
   */
  function WithAvatar(rows: seq<User>, email: string, url: string): (r: seq<User>)
    ensures |r| == |rows|
    ensures forall i :: 0 <= i < |rows| ==> r[i].(avatar := rows[i].avatar) == rows[i]
    ensures forall i :: 0 <= i < |rows| && r[i] != rows[i] ==> rows[i].email == email && r[i].avatar == Some(url)
    ensures (exists i :: 0 <= i < |rows| && rows[i].email == email) ==> exists i :: 0 <= i < |rows| && rows[i].email == email && r[i].avatar == Some(url)
  {
    match FindEmail(rows, email)
    case None => rows
    case Some(k) => rows[k := rows[k].(avatar := Some(url))]
  }

  /**
   * Setting the refresh token of an id changes that one field of the stored
   * user with that id, whatever the rest of the caller's copy of the user
   * says; a token of None clears it, and an id no row has changes nothing.
   */
  lemma RefreshTokenSets(rows: seq<User>, id: int, token: Option<string>)
    requires UniqueIds(rows)
    ensures var r := WithRefreshToken(rows, id, token);
      && |r| == |rows|
      && (forall u :: u in rows && u.id == id ==> u.(refreshToken := token) in r)
      && forall i :: 0 <= i < |rows| ==>
           if rows[i].id == id then r[i] == rows[i].(refreshToken := token) else r[i] == rows[i]
  {
  }

  /** The last refresh token written is the one stored: a new token supersedes the previous one. */
  lemma RefreshTokenLastWriteWins(rows: seq<User>, id: int, t1: Option<string>, t2: Option<string>)
    ensures WithRefreshToken(WithRefreshToken(rows, id, t1), id, t2) == WithRefreshToken(rows, id, t2)
  {
  }

  /** Confirmation never clears a flag, sets the flag of the user with that email, and changes nothing else. */
  lemma ConfirmedOnlyGrows(rows: seq<User>, email: string)
    ensures var r := WithConfirmed(rows, email);
      && |r| == |rows|
      && (forall i :: 0 <= i < |rows| ==> rows[i].confirmed ==> r[i].confirmed)
      && (forall i :: 0 <= i < |rows| ==> r[i] == rows[i] || r[i] == rows[i].(confirmed := true))
      && (GetUserByEmail(rows, email).Some? ==> GetUserByEmail(r, email) == Some(GetUserByEmail(rows, email).value.(confirmed := true)))
  {
  }

  /** Confirming twice leaves the same table as confirming once. */
  lemma ConfirmedIdempotent(rows: seq<User>, email: string)
    ensures WithConfirmed(WithConfirmed(rows, email), email) == WithConfirmed(rows, email)
  {
  }

  /** Confirming a user who is already confirmed changes nothing. */
  lemma ConfirmedAlreadyConfirmed(rows: seq<User>, email: string)
    requires GetUserByEmail(rows, email).Some? && GetUserByEmail(rows, email).value.confirmed
    ensures WithConfirmed(rows, email) == rows
  {
  }

  /** The new avatar is the one the user's email finds, and no other row changes. */
  lemma AvatarSets(rows: seq<User>, email: string, url: string)
    requires GetUserByEmail(rows, email).Some?
    ensures var r := WithAvatar(rows, email, url);
      && GetUserByEmail(r, email) == Some(GetUserByEmail(rows, email).value.(avatar := Some(url)))
      && forall i :: 0 <= i < |rows| && rows[i].email != email ==> r[i] == rows[i]
  {
  }

  /** The `users` table; `nextId` is the next value of the id sequence. */
  class UserTable {
    var rows: seq<User>
    var nextId: int

    ghost predicate Valid()
      reads this
    {
      UniqueIds(rows) && UniqueEmails(rows) && forall i :: 0 <= i < |rows| ==> rows[i].id < nextId
    }

    constructor ()
      ensures Valid() && rows == [] && nextId == 1
    {
      rows := [];
      nextId := 1;
    }

    /**
     * `create_user`: stores the body's fields with the avatar the lookup gave
     * (None when it failed), unconfirmed and without a refresh token. An email
     * already stored violates the unique constraint and nothing is stored; the
     * id drawn from the sequence is spent either way.
     */
    method CreateUser(body: UserBody, avatar: Option<string>) returns (r: Result<User, UserError>)
      requires Valid()
      modifies this
      ensures Valid() && nextId == old(nextId) + 1
      ensures r.Err? <==> GetUserByEmail(old(rows), body.email).Some?
      ensures r.Err? ==> r.error == EmailTaken && rows == old(rows)
      ensures r.Ok? ==> r.value == User(old(nextId), body.username, body.email, body.password, avatar, None, false)
      ensures r.Ok? ==> rows == old(rows) + [r.value]
      ensures r.Ok? ==> GetUserByEmail(rows, body.email) == Some(r.value)
    {
      var id := nextId;
      nextId := nextId + 1;
      if GetUserByEmail(rows, body.email).Some? {
        return Err(EmailTaken);
      }
      var u := User(id, body.username, body.email, body.password, avatar, None, false);
      rows := rows + [u];
      GetUserByEmailUnique(rows, u);
      r := Ok(u);
    }

    /** `update_token`: overwrites the refresh token of the stored row of `user`. */
    method UpdateToken(user: User, token: Option<string>)
      requires Valid()
      modifies this
      ensures Valid() && nextId == old(nextId)
      ensures rows == WithRefreshToken(old(rows), user.id, token)
    {
      var k := FindId(rows, user.id);
      if k.Some? {
        rows := rows[k.value := rows[k.value].(refreshToken := token)];
      }
    }

    /** `confirmed_email`: confirms the user with that email, or fails when there is none. */
    method ConfirmedEmail(email: string) returns (r: Result<(), UserError>)
      requires Valid()
      modifies this
      ensures Valid() && nextId == old(nextId)
      ensures r.Err? <==> GetUserByEmail(old(rows), email).None?
      ensures r.Err? ==> r.error == UserNotFound
      ensures rows == WithConfirmed(old(rows), email)
    {
      var k := FindEmail(rows, email);
      if k.None? {
        return Err(UserNotFound);
      }
      rows := rows[k.value := rows[k.value].(confirmed := true)];
      r := Ok(());
    }

    /** `update_avatar`: sets the avatar of the user with that email and returns that user. */
    method UpdateAvatar(email: string, url: string) returns (r: Result<User, UserError>)
      requires Valid()
      modifies this
      ensures Valid() && nextId == old(nextId)
      ensures r.Err? <==> GetUserByEmail(old(rows), email).None?
      ensures r.Err? ==> r.error == UserNotFound
      ensures rows == WithAvatar(old(rows), email, url)
      ensures r.Ok? ==> r.value == GetUserByEmail(old(rows), email).value.(avatar := Some(url))
      ensures r.Ok? ==> GetUserByEmail(rows, email) == Some(r.value)
    {
      var k := FindEmail(rows, email);
      if k.None? {
        return Err(UserNotFound);
      }
      AvatarSets(rows, email, url);
      rows := rows[k.value := rows[k.value].(avatar := Some(url))];
      r := Ok(rows[k.value]);
    }
  }
}
