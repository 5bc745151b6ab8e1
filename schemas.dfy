/**
 * Request and response shapes (app/schemas/user.py), with their defaults.
 *
 * `UserUpdate` keeps track of which fields the caller actually sent: an
 * `Option` field is `None` when it was left out, and the password is one of
 * left out, sent as null, or sent as a string.
 */
module Schemas {
  import opened Wrappers
  import opened Models

  datatype UserBase = UserBase(username: string, isActive: bool := true, isSuperuser: bool := false)

  datatype UserCreate = UserCreate(
    username: string,
    password: string,
    isActive: bool := true,
    isSuperuser: bool := false)
  {
    function Base(): UserBase {
      UserBase(username, isActive, isSuperuser)
    }
  }

  datatype PasswordInput = Unset | ExplicitNull | Given(value: string)

  datatype UserUpdate = UserUpdate(
    username: string,
    isActive: Option<bool> := None,
    isSuperuser: Option<bool> := None,
    password: PasswordInput := Unset)
  {
    /** The attribute values as the schema object exposes them, defaults filled in. */
    function Base(): UserBase {
      UserBase(username, isActive.GetOr(true), isSuperuser.GetOr(false))
    }

    /**
     * `dict(exclude_unset=True)`: one entry per field the caller sent, and
     * `username` is always sent because it is required.
     */
    function ExcludeUnset(): (data: map<Field, FieldValue>)
      ensures WellTyped(data)
      ensures data.Keys <= {Username, IsActive, IsSuperuser, Password}
      ensures Username in data && data[Username] == Text(username)
      ensures IsActive in data <==> isActive.Some?
      ensures IsActive in data ==> data[IsActive] == Flag(isActive.value)
      ensures IsSuperuser in data <==> isSuperuser.Some?
      ensures IsSuperuser in data ==> data[IsSuperuser] == Flag(isSuperuser.value)
      ensures Password in data <==> !password.Unset?
      ensures Password in data ==> data[Password] == if password.Given? then Text(password.value) else Null
    {
      var withName := map[Username := Text(username)];
      var withActive := if isActive.Some? then withName[IsActive := Flag(isActive.value)] else withName;
      var withSuper := if isSuperuser.Some? then withActive[IsSuperuser := Flag(isSuperuser.value)] else withActive;
      match password
      case Unset => withSuper
      case ExplicitNull => withSuper[Password := Null]
      case Given(p) => withSuper[Password := Text(p)]
    }
  }

  /** The response shape: the base fields, the id and both timestamps, and no credential. */
  datatype UserInDB = UserInDB(
    username: string,
    isActive: bool,
    isSuperuser: bool,
    id: int,
    createdAt: int,
    updatedAt: int)
  {
    function Base(): UserBase {
      UserBase(username, isActive, isSuperuser)
    }
  }

  /** Reading the response attributes off a stored row (`from_attributes`). */
  function FromRecord(rec: UserRecord): UserInDB {
    UserInDB(rec.username, rec.isActive, rec.isSuperuser, rec.id, rec.createdAt, rec.updatedAt)
  }

  /** The response carries the row's base fields, its id and both timestamps unchanged. */
  lemma ResponseMirrorsRow(rec: UserRecord)
    ensures FromRecord(rec).Base() == UserBase(rec.username, rec.isActive, rec.isSuperuser)
    ensures FromRecord(rec).id == rec.id
    ensures FromRecord(rec).createdAt == rec.createdAt && FromRecord(rec).updatedAt == rec.updatedAt
  {
  }

  /** The response does not depend on the stored credential: rows that differ only there look the same. */
  lemma ResponseHidesCredential(a: UserRecord, b: UserRecord)
    requires a.(hashedPassword := b.hashedPassword) == b
    ensures FromRecord(a) == FromRecord(b)
  {
  }

  /** Omitted flags default to active and not a superuser; the update password defaults to absent. */
  lemma SchemaDefaults(username: string, password: string)
    ensures UserBase(username).isActive && !UserBase(username).isSuperuser
    ensures UserCreate(username, password).Base() == UserBase(username)
    ensures UserUpdate(username).Base() == UserBase(username)
    ensures UserUpdate(username).password == Unset
    ensures UserUpdate(username).ExcludeUnset() == map[Username := Text(username)]
  {
  }
}
