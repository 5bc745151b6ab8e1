/**
 * The persisted user row and attribute-wise writes to it.
 *
 * The ORM class (app/models/user.py) is not part of this model; its columns are
 * the ones the user service reads and writes. Timestamps are integers.
 */
module Models {

  datatype UserRecord = UserRecord(
    id: int,
    username: string,
    hashedPassword: string,
    isActive: bool,
    isSuperuser: bool,
    createdAt: int,
    updatedAt: int)

  /** The keys an update dictionary can hold: the update schema's fields plus the two the service adds. */
  datatype Field = Username | IsActive | IsSuperuser | Password | HashedPassword | UpdatedAt

  /** A value stored under a key of an update dictionary. */
  datatype FieldValue = Text(text: string) | Flag(flag: bool) | Instant(instant: int) | Null

  /** `password` is a schema field only; every other key names a column of the row. */
  predicate IsColumn(f: Field) {
    f != Password
  }

  /** The kind of value each key carries. */
  predicate Fits(f: Field, v: FieldValue) {
    match f
    case Username => v.Text?
    case HashedPassword => v.Text?
    case IsActive => v.Flag?
    case IsSuperuser => v.Flag?
    case Password => v.Text? || v.Null?
    case UpdatedAt => v.Instant?
  }

  predicate WellTyped(data: map<Field, FieldValue>) {
    forall f :: f in data ==> Fits(f, data[f])
  }

  /** `getattr(user, field)`. */
  function GetAttr(rec: UserRecord, f: Field): (v: FieldValue)
    requires IsColumn(f)
    ensures Fits(f, v)
  {
    match f
    case Username => Text(rec.username)
    case HashedPassword => Text(rec.hashedPassword)
    case IsActive => Flag(rec.isActive)
    case IsSuperuser => Flag(rec.isSuperuser)
    case UpdatedAt => Instant(rec.updatedAt)
  }

  /** `setattr(user, field, value)`: the named column takes the value and no other column changes. */
  function SetAttr(rec: UserRecord, f: Field, v: FieldValue): (r: UserRecord)
    requires IsColumn(f) && Fits(f, v)
    ensures GetAttr(r, f) == v
    ensures forall g :: IsColumn(g) && g != f ==> GetAttr(r, g) == GetAttr(rec, g)
    ensures r.id == rec.id && r.createdAt == rec.createdAt
  {
    match f
    case Username => rec.(username := v.text)
    case HashedPassword => rec.(hashedPassword := v.text)
    case IsActive => rec.(isActive := v.flag)
    case IsSuperuser => rec.(isSuperuser := v.flag)
    case UpdatedAt => rec.(updatedAt := v.instant)
  }

  /** Two rows agree when their id, their creation time and every column agree. */
  lemma SameRow(a: UserRecord, b: UserRecord)
    requires a.id == b.id && a.createdAt == b.createdAt
    requires forall g :: IsColumn(g) ==> GetAttr(a, g) == GetAttr(b, g)
    ensures a == b
  {
    assert GetAttr(a, Username) == GetAttr(b, Username);
    assert GetAttr(a, HashedPassword) == GetAttr(b, HashedPassword);
    assert GetAttr(a, IsActive) == GetAttr(b, IsActive);
    assert GetAttr(a, IsSuperuser) == GetAttr(b, IsSuperuser);
    assert GetAttr(a, UpdatedAt) == GetAttr(b, UpdatedAt);
  }

  /**
   * The row after every entry of `data` has been written with `setattr`:
   * each listed column holds its new value, the others keep theirs.
   */
  function Patched(rec: UserRecord, data: map<Field, FieldValue>): (r: UserRecord)
    requires WellTyped(data) && Password !in data
    ensures forall g :: IsColumn(g) ==> GetAttr(r, g) == if g in data then data[g] else GetAttr(rec, g)
    ensures r.id == rec.id && r.createdAt == rec.createdAt
  {
    UserRecord(
      rec.id,
      if Username in data then data[Username].text else rec.username,
      if HashedPassword in data then data[HashedPassword].text else rec.hashedPassword,
      if IsActive in data then data[IsActive].flag else rec.isActive,
      if IsSuperuser in data then data[IsSuperuser].flag else rec.isSuperuser,
      rec.createdAt,
      if UpdatedAt in data then data[UpdatedAt].instant else rec.updatedAt)
  }

  /** Writing one more entry with `setattr` extends the patch by that entry, so the order of the writes does not matter. */
  lemma PatchedExtend(rec: UserRecord, data: map<Field, FieldValue>, f: Field, v: FieldValue)
    requires WellTyped(data) && Password !in data
    requires IsColumn(f) && Fits(f, v)
    ensures Patched(rec, data[f := v]) == SetAttr(Patched(rec, data), f, v)
  {
    SameRow(Patched(rec, data[f := v]), SetAttr(Patched(rec, data), f, v));
  }

  /** An empty patch leaves the row as it is. */
  lemma PatchedEmpty(rec: UserRecord)
    ensures Patched(rec, map[]) == rec
  {
    SameRow(Patched(rec, map[]), rec);
  }
}
