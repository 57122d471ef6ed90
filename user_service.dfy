/**
 * The user service (services/user.service.go) over an in-memory model of
 * the `users` table (models/user.model.go). Storage failures other than a
 * violation of the unique e-mail index are inputs (`fault`).
 */
module UserService {
  import opened Common

  /** One row of `users`. */
  datatype User = User(
    id: Id,
    name: string,
    email: string,
    password: string,
    role: string,
    provider: string,
    photo: string,
    verified: bool,
    createdAt: Time,
    updatedAt: Time)

  /** What the API shows of a user: no password and no verification flag. */
  datatype UserResponse = UserResponse(
    id: Id,
    name: string,
    email: string,
    role: string,
    photo: string,
    provider: string,
    createdAt: Time,
    updatedAt: Time)

  /** The admin update payload: an empty string means "leave as it is". */
  datatype UpdateUserInput = UpdateUserInput(name: string, email: string, role: string, photo: string)

  datatype UserError =
    | UserNotFound
    | UserStorageError(operation: string)

  type Users = map<Id, User>

  /** `GetUserResponse`: the public fields of a user. */
  function GetUserResponse(u: User): (r: UserResponse)
    ensures r.id == u.id && r.name == u.name && r.email == u.email && r.role == u.role
    ensures r.photo == u.photo && r.provider == u.provider
    ensures r.createdAt == u.createdAt && r.updatedAt == u.updatedAt
  {
    UserResponse(u.id, u.name, u.email, u.role, u.photo, u.provider, u.createdAt, u.updatedAt)
  }

  /** The response never depends on the password (nor on the verification flag). */
  lemma ResponseHidesPassword(u: User, password: string, verified: bool)
    ensures GetUserResponse(u.(password := password, verified := verified)) == GetUserResponse(u)
  {
  }

  /** Two users with the same response differ at most in password and verification flag. */
  lemma ResponseDeterminesPublicFields(u: User, v: User)
    requires GetUserResponse(u) == GetUserResponse(v)
    ensures u.(password := v.password, verified := v.verified) == v
  {
  }

  /** `input` if it is non-empty, otherwise `current`. */
  function NonEmptyOr(input: string, current: string): (s: string)
    ensures input != "" ==> s == input
    ensures input == "" ==> s == current
  {
    if input != "" then input else current
  }

  /** The row `UpdateUser` saves: each non-empty input overwrites its field, and the timestamp is refreshed. */
  function Edited(u: User, input: UpdateUserInput, now: Time): User {
    u.(name := NonEmptyOr(input.name, u.name),
       email := NonEmptyOr(input.email, u.email),
       role := NonEmptyOr(input.role, u.role),
       photo := NonEmptyOr(input.photo, u.photo),
       updatedAt := now)
  }

  /** Only name, e-mail, role, photo and the timestamp can change; empty inputs change nothing. */
  lemma EditedFields(u: User, input: UpdateUserInput, now: Time)
    ensures var v := Edited(u, input, now);
      && v.id == u.id && v.password == u.password && v.provider == u.provider
      && v.verified == u.verified && v.createdAt == u.createdAt && v.updatedAt == now
      && (input.name != "" ==> v.name == input.name) && (input.name == "" ==> v.name == u.name)
      && (input.email != "" ==> v.email == input.email) && (input.email == "" ==> v.email == u.email)
      && (input.role != "" ==> v.role == input.role) && (input.role == "" ==> v.role == u.role)
      && (input.photo != "" ==> v.photo == input.photo) && (input.photo == "" ==> v.photo == u.photo)
  {
  }

  /** An all-empty payload only refreshes the timestamp. */
  lemma EmptyInputOnlyTouches(u: User, now: Time)
    ensures Edited(u, UpdateUserInput("", "", "", ""), now) == u.(updatedAt := now)
  {
  }

  /** Repeating an update is the same as doing it once, at the later time. */
  lemma EditIdempotent(u: User, input: UpdateUserInput, t1: Time, t2: Time)
    ensures Edited(Edited(u, input, t1), input, t2) == Edited(u, input, t2)
  {
  }

  /** Some user other than `u` already holds its e-mail, which carries a unique index. */
  predicate EmailTakenByOther(users: Users, u: User) {
    exists k :: k in users && k != u.id && users[k].email == u.email
  }

  /** Every row is stored under its own id. */
  predicate KeyedUsers(users: Users) {
    forall k :: k in users ==> users[k].id == k
  }

  ghost predicate UniqueEmails(users: Users) {
    forall a, b :: a in users && b in users && a != b ==> users[a].email != users[b].email
  }

  /** Saving a row under its own id whose e-mail no other row holds keeps e-mails unique. */
  lemma SaveKeepsEmailsUnique(users: Users, u: User)
    requires UniqueEmails(users) && !EmailTakenByOther(users, u)
    requires KeyedUsers(users)
    ensures UniqueEmails(users[u.id := u]) && KeyedUsers(users[u.id := u])
  {
  }

  /** `order` lists every row of the table exactly once: the scan `Find` returns. */
  predicate IsUserScan(users: Users, order: seq<Id>) {
    && Distinct(order)
    && (forall i :: 0 <= i < |order| ==> order[i] in users)
    && (forall k :: k in users ==> k in order)
  }

  /** The `users` table. */
  class UserStore {
    var users: Users

    /** The primary key is the row's id and e-mails are unique. */
    ghost predicate Valid()
      reads this
    {
      && KeyedUsers(users)
      && UniqueEmails(users)
    }

    constructor ()
      ensures Valid() && users == map[]
    {
      users := map[];
    }

    /**
     * `GetUsers`: one response per row of the scan, in scan order; a
     * failed read is reported as "fetch users".
     */
    method GetUsers(order: seq<Id>, fault: bool) returns (r: Result<seq<UserResponse>, UserError>)
      requires IsUserScan(users, order)
      ensures r.Err? <==> fault
      ensures r.Err? ==> r.error == UserStorageError("fetch users")
      ensures r.Ok? ==>
        && |r.value| == |order|
        && forall i :: 0 <= i < |order| ==> r.value[i] == GetUserResponse(users[order[i]])
    {
      if fault {
        return Err(UserStorageError("fetch users"));
      }
      var responses: seq<UserResponse> := [];
      for i := 0 to |order|
        invariant |responses| == i
        invariant forall j :: 0 <= j < i ==> responses[j] == GetUserResponse(users[order[j]])
      {
        responses := responses + [GetUserResponse(users[order[i]])];
      }
      r := Ok(responses);
    }

    /** The field updates of `UpdateUser` on the fetched row, one `if` per field. */
    static method ApplyInput(u: User, input: UpdateUserInput, now: Time) returns (user: User)
      ensures user == Edited(u, input, now)
    {
      user := u;
      if input.name != "" {
        user := user.(name := input.name);
      }
      if input.email != "" {
        user := user.(email := input.email);
      }
      if input.role != "" {
        user := user.(role := input.role);
      }
      if input.photo != "" {
        user := user.(photo := input.photo);
      }
      user := user.(updatedAt := now);
    }

    /**
     * `UpdateUser`: a missing row is "user not found"; otherwise the
     * non-empty fields are overwritten, the timestamp refreshed, and the row
     * saved. A failed save, a taken e-mail included, is reported as
     * "update user" and writes nothing.
     */
    method UpdateUser(id: Id, input: UpdateUserInput, now: Time, fault: bool) returns (r: Result<UserResponse, UserError>)
      requires Valid()
      modifies this
      ensures Valid()
      ensures id !in old(users) ==> r == Err(UserNotFound) && users == old(users)
      ensures id in old(users) ==>
        var saved := Edited(old(users)[id], input, now);
        if fault || EmailTakenByOther(old(users), saved) then
          r == Err(UserStorageError("update user")) && users == old(users)
        else
          r == Ok(GetUserResponse(saved)) && users == old(users)[id := saved]
    {
      if id !in users {
        return Err(UserNotFound);
      }
      var user := ApplyInput(users[id], input, now);
      if fault || EmailTakenByOther(users, user) {
        return Err(UserStorageError("update user"));
      }
      SaveKeepsEmailsUnique(users, user);
      users := users[id := user];
      r := Ok(GetUserResponse(user));
    }

    /** `DeleteUser`: a missing row is "user not found" and nothing is deleted; a failed delete keeps the row. */
    method DeleteUser(id: Id, fault: bool) returns (err: Option<UserError>)
      requires Valid()
      modifies this
      ensures Valid()
      ensures id !in old(users) ==> err == Some(UserNotFound) && users == old(users)
      ensures id in old(users) && fault ==> err == Some(UserStorageError("delete user")) && users == old(users)
      ensures id in old(users) && !fault ==> err.None? && users == old(users) - {id}
    {
      if id !in users {
        return Some(UserNotFound);
      }
      if fault {
        return Some(UserStorageError("delete user"));
      }
      users := users - {id};
      err := None;
    }
  }
}
