/**
 * The user lifecycle (app/services/user_service.py): create, fetch and patch
 * rows of an in-memory users table.
 *
 * The database session becomes a map from id to row plus the next id the
 * auto-increment column would hand out; `add`/`commit`/`refresh` become a
 * direct write to that map. The clock (`datetime.utcnow()`) is the `now`
 * argument and the salt drawn by the credential hash is the `salt` argument.
 */
module Services {
  import opened Wrappers
  import opened Models
  import opened Schemas
  import opened Security

  /** `NotFoundException`: the only failure of the service, naming the missing id. */
  datatype NotFound = NotFound(userId: int)

  /**
   * What `update_user` makes of an existing row, field by field: the sent
   * fields replace the old ones, a sent password replaces the credential by
   * its hash, `updated_at` becomes `now`, and nothing else changes.
   */
  function Updated(h: Digester, rec: UserRecord, userIn: UserUpdate, salt: Salt, now: int): UserRecord
    requires userIn.password != ExplicitNull
  {
    rec.(
      username := userIn.username,
      isActive := userIn.isActive.GetOr(rec.isActive),
      isSuperuser := userIn.isSuperuser.GetOr(rec.isSuperuser),
      hashedPassword := if userIn.password.Given? then GetPasswordHash(h, salt, userIn.password.value) else rec.hashedPassword,
      updatedAt := now)
  }

  /** The dictionary `update_user` writes: the sent fields, the password swapped for its hash, and the new `updated_at`. */
  function UpdateData(h: Digester, userIn: UserUpdate, salt: Salt, now: int): (data: map<Field, FieldValue>)
    requires userIn.password != ExplicitNull
    ensures WellTyped(data) && Password !in data
    ensures UpdatedAt in data && data[UpdatedAt] == Instant(now)
  {
    var sent := userIn.ExcludeUnset();
    var hashed := if userIn.password.Given?
      then (sent - {Password})[HashedPassword := Text(GetPasswordHash(h, salt, userIn.password.value))]
      else sent;
    hashed[UpdatedAt := Instant(now)]
  }

  /** Writing the update dictionary column by column yields the field-wise update. */
  lemma PatchIsUpdate(h: Digester, rec: UserRecord, userIn: UserUpdate, salt: Salt, now: int)
    requires userIn.password != ExplicitNull
    ensures Patched(rec, UpdateData(h, userIn, salt, now)) == Updated(h, rec, userIn, salt, now)
  {
    if userIn.password.Given? {
      PatchIsUpdateWithPassword(h, rec, userIn, salt, now);
    } else {
      PatchIsUpdateWithoutPassword(h, rec, userIn, salt, now);
    }
  }

  /** `PatchIsUpdate` when a new password was sent: its hash lands in `hashed_password`. */
  lemma PatchIsUpdateWithPassword(h: Digester, rec: UserRecord, userIn: UserUpdate, salt: Salt, now: int)
    requires userIn.password.Given?
    ensures Patched(rec, UpdateData(h, userIn, salt, now)) == Updated(h, rec, userIn, salt, now)
  {
    PatchWithCredential(rec, userIn, GetPasswordHash(h, salt, userIn.password.value), now);
  }

  /** Writing the sent fields with the password replaced by some credential sets exactly those fields and that credential. */
  lemma PatchWithCredential(rec: UserRecord, userIn: UserUpdate, credential: string, now: int)
    requires userIn.password.Given?
    ensures Patched(rec, (userIn.ExcludeUnset() - {Password})[HashedPassword := Text(credential)][UpdatedAt := Instant(now)])
            == rec.(
                 username := userIn.username,
                 isActive := userIn.isActive.GetOr(rec.isActive),
                 isSuperuser := userIn.isSuperuser.GetOr(rec.isSuperuser),
                 hashedPassword := credential,
                 updatedAt := now)
  {
    var data := (userIn.ExcludeUnset() - {Password})[HashedPassword := Text(credential)][UpdatedAt := Instant(now)];
    var patched := Patched(rec, data);
    assert patched.isActive == userIn.isActive.GetOr(rec.isActive);
    assert patched.isSuperuser == userIn.isSuperuser.GetOr(rec.isSuperuser);
  }

  /** `PatchIsUpdate` when no password was sent: the credential is kept. */
  lemma PatchIsUpdateWithoutPassword(h: Digester, rec: UserRecord, userIn: UserUpdate, salt: Salt, now: int)
    requires userIn.password.Unset?
    ensures Patched(rec, UpdateData(h, userIn, salt, now)) == Updated(h, rec, userIn, salt, now)
  {
    var data := UpdateData(h, userIn, salt, now);
    assert data == userIn.ExcludeUnset()[UpdatedAt := Instant(now)];
    var patched := Patched(rec, data);
    assert patched.hashedPassword == rec.hashedPassword;
    assert patched.isActive == userIn.isActive.GetOr(rec.isActive);
    assert patched.isSuperuser == userIn.isSuperuser.GetOr(rec.isSuperuser);
  }

  /** `update_user` never touches the id or the creation time, and a field the caller did not send keeps its value. */
  lemma UpdateKeepsUnsentFields(h: Digester, rec: UserRecord, userIn: UserUpdate, salt: Salt, now: int)
    requires userIn.password != ExplicitNull
    ensures var r := Updated(h, rec, userIn, salt, now);
      && r.id == rec.id && r.createdAt == rec.createdAt
      && r.username == userIn.username && r.updatedAt == now
      && (userIn.isActive.None? ==> r.isActive == rec.isActive)
      && (userIn.isSuperuser.None? ==> r.isSuperuser == rec.isSuperuser)
      && (userIn.password.Unset? ==> r.hashedPassword == rec.hashedPassword)
  {
  }

  /** A sent password is stored as a credential that the new password verifies against, and an old one only on a hash collision. */
  lemma UpdatedPasswordVerifies(h: Digester, rec: UserRecord, userIn: UserUpdate, salt: Salt, now: int, oldPassword: string)
    requires userIn.password.Given?
    ensures var r := Updated(h, rec, userIn, salt, now);
      && VerifyPassword(h, userIn.password.value, r.hashedPassword)
      && (VerifyPassword(h, oldPassword, r.hashedPassword)
          <==> h(oldPassword + salt) == h(userIn.password.value + salt))
  {
    VerifyRoundTrip(h, salt, userIn.password.value);
    VerifyOtherPassword(h, salt, userIn.password.value, oldPassword);
  }

  /** Sending the same update twice ends where sending it once at the later time does. */
  lemma UpdateIdempotent(h: Digester, rec: UserRecord, userIn: UserUpdate, salt1: Salt, salt2: Salt, now1: int, now2: int)
    requires userIn.password != ExplicitNull
    ensures Updated(h, Updated(h, rec, userIn, salt1, now1), userIn, salt2, now2)
            == Updated(h, rec, userIn, salt2, now2)
  {
  }

  /** `created_at <= updated_at` survives an update as long as the clock does not run backwards. */
  lemma UpdateKeepsTimestampsOrdered(h: Digester, rec: UserRecord, userIn: UserUpdate, salt: Salt, now: int)
    requires userIn.password != ExplicitNull
    requires rec.createdAt <= rec.updatedAt <= now
    ensures var r := Updated(h, rec, userIn, salt, now);
      r.createdAt <= r.updatedAt
  {
  }

  /**
   * Builds the update dictionary as `update_user` does: take the sent fields,
   * pop the password and put its hash under `hashed_password`, then stamp
   * `updated_at`.
   */
  method BuildUpdateData(h: Digester, userIn: UserUpdate, salt: Salt, now: int) returns (updateData: map<Field, FieldValue>)
    requires userIn.password != ExplicitNull
    ensures updateData == UpdateData(h, userIn, salt, now)
  {
    updateData := userIn.ExcludeUnset();
    if Password in updateData {
      var password := updateData[Password].text;
      updateData := updateData - {Password};
      updateData := updateData[HashedPassword := Text(GetPasswordHash(h, salt, password))];
    }
    updateData := updateData[UpdatedAt := Instant(now)];
  }

  /** The `setattr` loop: writes every entry of the dictionary onto the row, in whatever order the keys come. */
  method ApplyUpdate(user: UserRecord, updateData: map<Field, FieldValue>) returns (patched: UserRecord)
    requires WellTyped(updateData) && Password !in updateData
    ensures patched == Patched(user, updateData)
  {
    patched := user;
    var pending := updateData.Keys;
    PatchedEmpty(user);
    assert updateData - pending == map[];
    while pending != {}
      invariant pending <= updateData.Keys
      invariant patched == Patched(user, updateData - pending)
      decreases pending
    {
      var field :| field in pending;
      PatchedExtend(user, updateData - pending, field, updateData[field]);
      assert (updateData - pending)[field := updateData[field]] == updateData - (pending - {field});
      patched := SetAttr(patched, field, updateData[field]);
      pending := pending - {field};
    }
    assert updateData - pending == updateData;
  }

  /** The body of `update_user` on a fetched row: build the update dictionary, then write it with `setattr`. */
  method UpdateRow(h: Digester, rec: UserRecord, userIn: UserUpdate, salt: Salt, now: int) returns (user: UserRecord)
    requires userIn.password != ExplicitNull
    ensures user == Updated(h, rec, userIn, salt, now)
    ensures user.id == rec.id
  {
    var updateData := BuildUpdateData(h, userIn, salt, now);
    user := ApplyUpdate(rec, updateData);
    PatchIsUpdate(h, rec, userIn, salt, now);
  }

  class UserService {
    /** The hash the credential utility applies (SHA-256 in the source). */
    const h: Digester
    /** The users table, by id. */
    var table: map<int, UserRecord>
    /** The id the next inserted row receives. */
    var nextId: int

    /**
     * Every row sits under its own id, every id in use is below the next one,
     * and every stored credential has the salt-separator-digest shape.
     */
    ghost predicate Valid()
      reads this
    {
      && 1 <= nextId
      && (forall id :: id in table ==> 1 <= id < nextId && table[id].id == id)
      && (forall id :: id in table ==> IsCredential(table[id].hashedPassword))
    }

    /** On any stored row, `verify_password` comes down to comparing H of the salted password with the digest. */
    lemma StoredCredentialsWellFormed(id: int, plain: string)
      requires Valid() && id in table
      ensures var c := table[id].hashedPassword;
        VerifyPassword(h, plain, c) <==> h(plain + c[..SaltLength]) == c[SaltLength + 1..]
    {
      var c := table[id].hashedPassword;
      assert c == c[..SaltLength] + [Separator] + c[SaltLength + 1..];
      HexHasNoSeparator(c[..SaltLength]);
      HexHasNoSeparator(c[SaltLength + 1..]);
      VerifyWellFormed(h, plain, c[..SaltLength], c[SaltLength + 1..]);
    }

    constructor (h: Digester)
      ensures Valid()
      ensures this.h == h && table == map[] && nextId == 1
    {
      this.h := h;
      table := map[];
      nextId := 1;
    }

    /**
     * `create_user`: one new row under a fresh id, holding the hash of the
     * password rather than the password, the flags as given, and the same
     * instant as creation and update time.
     */
    method CreateUser(userIn: UserCreate, salt: Salt, now: int) returns (user: UserRecord)
      requires Valid()
      modifies this
      ensures Valid()
      ensures user.id !in old(table) && table == old(table)[user.id := user]
      ensures |table| == |old(table)| + 1
      ensures user.username == userIn.username
      ensures user.hashedPassword == GetPasswordHash(h, salt, userIn.password)
      ensures user.isActive == userIn.isActive && user.isSuperuser == userIn.isSuperuser
      ensures user.createdAt == now && user.updatedAt == now
    {
      user := UserRecord(
        nextId,
        userIn.username,
        GetPasswordHash(h, salt, userIn.password),
        userIn.isActive,
        userIn.isSuperuser,
        now,
        now);
      table := table[nextId := user];
      nextId := nextId + 1;
    }

    /** `get_user`: the row under the id, or NotFound when there is none; the table is only read. */
    method GetUser(userId: int) returns (r: Result<UserRecord, NotFound>)
      requires Valid()
      ensures r.Ok? <==> userId in table
      ensures r.Ok? ==> r.value == table[userId] && r.value.id == userId
      ensures r.Err? ==> r.error == NotFound(userId)
    {
      if userId in table {
        r := Ok(table[userId]);
      } else {
        r := Err(NotFound(userId));
      }
    }

    /**
     * `update_user`: on a missing id, NotFound before anything is written;
     * otherwise the row becomes `Updated(...)` of itself and no other row changes.
     * A password explicitly sent as null would crash the hash call, so callers
     * must not send one.
     */
    method UpdateUser(userId: int, userIn: UserUpdate, salt: Salt, now: int) returns (r: Result<UserRecord, NotFound>)
      requires Valid()
      requires userIn.password != ExplicitNull
      modifies this
      ensures Valid() && nextId == old(nextId)
      ensures userId !in old(table) ==> r == Err(NotFound(userId)) && table == old(table)
      ensures userId in old(table) ==>
        && r == Ok(Updated(h, old(table)[userId], userIn, salt, now))
        && table == old(table)[userId := r.value]
    {
      var found := GetUser(userId);
      if found.Err? {
        return Err(found.error);
      }
      var user := UpdateRow(h, found.value, userIn, salt, now);
      table := table[userId := user];
      r := Ok(user);
    }
  }

  /** The flow of the API tests: a created user can be fetched back under its id with its name. */
  method CreateThenGet(service: UserService, userIn: UserCreate, salt: Salt, now: int)
    returns (created: UserRecord, fetched: Result<UserRecord, NotFound>)
    requires service.Valid()
    modifies service
    ensures service.Valid()
    ensures fetched == Ok(created)
    ensures fetched.value.id == created.id && fetched.value.username == userIn.username
    ensures VerifyPassword(service.h, userIn.password, fetched.value.hashedPassword)
  {
    created := service.CreateUser(userIn, salt, now);
    fetched := service.GetUser(created.id);
    VerifyRoundTrip(service.h, salt, userIn.password);
  }
}
