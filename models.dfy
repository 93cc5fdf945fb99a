/** The `User` model, its manager and the slug pre-save hook.

    An Account is one stored row of the user table. A User object is a model
    instance in memory: it is built from keyword arguments or loaded from a
    row, its fields are assigned one by one, and `save` writes it back. The
    UserManager holds the table itself, a map from uuid to row.

    Code the model does not see is passed in as a Services value: email
    normalisation, password hashing and checking, the token maker and
    checker, and the unique slug generator. */
module Models {
  import opened Values
  import EmailRegex

  type Uuid = nat
  type Timestamp = int

  /** The stored password column. */
  datatype Credential =
    | Blank                  // the column default, before any set_password
    | Unusable               // what set_password(None) stores
    | Encoded(hash: string)  // what set_password(raw) stores: the hasher's encoding of raw
    | Raw(text: string)      // text assigned to the column directly, unhashed

  /** One row of the user table (the fields declared on `User`). */
  datatype Account = Account(
    uuid: Uuid,
    firstName: Option<string>,
    lastName: Option<string>,
    email: string,
    username: string,
    address: Option<string>,
    postalCode: Option<int>,
    city: Option<string>,
    dateJoined: Option<Timestamp>,
    lastLogin: Option<Timestamp>,
    emailVerified: bool,
    isActive: bool,
    isStaff: bool,
    isSuperuser: bool,
    slug: Option<string>,
    password: Credential)

  /** Library and helper code the account core calls but does not define. */
  datatype Services = Services(
    normalizeEmail: string -> string,                 // BaseUserManager.normalize_email
    encodePassword: string -> string,                 // the password hasher behind set_password
    checkPassword: (Credential, string) -> bool,      // check_password
    makeToken: Account -> string,                     // account_activation_token.make_token
    checkToken: (Account, string) -> bool,            // account_activation_token.check_token
    uniqueSlug: (Account, set<string>) -> string)     // unique_user_slug_generator, given the slugs in use

  const InvalidEmailMessage := "A valid email is required to register"

  /** What `set_password(raw)` stores. */
  function PasswordFor(raw: Option<string>, encode: string -> string): Credential {
    match raw
    case None => Unusable
    case Some(p) => Encoded(encode(p))
  }

  // ---------------------------------------------------------------------
  // Building an instance from keyword arguments: `User(**kwargs)`
  // ---------------------------------------------------------------------

  /** The names of the model's fields, as keyword arguments and as
      serializer fields (uuid, first_name, last_name, email, username,
      address, city, postal_code, password, email_verified, date_joined,
      slug, last_login, is_active, is_staff, is_superuser). */
  datatype Field =
    | UuidField | FirstName | LastName | Email | Username | Address | City | PostalCode
    | Password | EmailVerified | DateJoined | Slug | LastLogin
    | IsActive | IsStaff | IsSuperuser

  const FlagFields: set<Field> := {EmailVerified, IsActive, IsStaff, IsSuperuser}

  /** The value fits the column the field names. */
  predicate FieldValueFits(f: Field, v: Value) {
    match f
    case Email | Username | Password => v.Text?
    case PostalCode => v.Null? || v.Int?
    case EmailVerified | IsActive | IsStaff | IsSuperuser => v.Flag?
    case UuidField => v.Uid?
    case DateJoined | LastLogin => v.Null? || v.Time?
    case FirstName | LastName | Address | City | Slug => v.Null? || v.Text?
  }

  function TextArg(kwargs: map<Field, Value>, f: Field): string {
    if f in kwargs && kwargs[f].Text? then kwargs[f].text else ""
  }

  function NullableTextArg(kwargs: map<Field, Value>, f: Field): Option<string> {
    if f in kwargs && kwargs[f].Text? then Some(kwargs[f].text) else None
  }

  function NullableIntArg(kwargs: map<Field, Value>, f: Field): Option<int> {
    if f in kwargs && kwargs[f].Int? then Some(kwargs[f].number) else None
  }

  function NullableTimeArg(kwargs: map<Field, Value>, f: Field): Option<Timestamp> {
    if f in kwargs && kwargs[f].Time? then Some(kwargs[f].time) else None
  }

  function FlagArg(kwargs: map<Field, Value>, f: Field): bool {
    f in kwargs && kwargs[f].Flag? && kwargs[f].flag
  }

  /** `User(**kwargs)`, where uuid is the value the uuid4 default would
      draw. */
  function Construct(kwargs: map<Field, Value>, uuid: Uuid): Account
  {
    Account(
      uuid := if UuidField in kwargs && kwargs[UuidField].Uid? then kwargs[UuidField].uid else uuid,
      firstName := NullableTextArg(kwargs, FirstName),
      lastName := NullableTextArg(kwargs, LastName),
      email := TextArg(kwargs, Email),
      username := TextArg(kwargs, Username),
      address := NullableTextArg(kwargs, Address),
      postalCode := NullableIntArg(kwargs, PostalCode),
      city := NullableTextArg(kwargs, City),
      dateJoined := NullableTimeArg(kwargs, DateJoined),
      lastLogin := NullableTimeArg(kwargs, LastLogin),
      emailVerified := FlagArg(kwargs, EmailVerified),
      isActive := FlagArg(kwargs, IsActive),
      isStaff := FlagArg(kwargs, IsStaff),
      isSuperuser := FlagArg(kwargs, IsSuperuser),
      slug := NullableTextArg(kwargs, Slug),
      password := if Password in kwargs && kwargs[Password].Text? then Raw(kwargs[Password].text) else Blank)
  }

  /** Each field named in the keyword arguments takes the value given (a
      password given this way is stored as it is, unhashed); every other
      field keeps its declared default: the drawn uuid, empty email and
      username, every flag false, a blank password column. */
  lemma ConstructGivenOrDefault(kwargs: map<Field, Value>, uuid: Uuid)
    ensures var a := Construct(kwargs, uuid);
      && (UuidField in kwargs && kwargs[UuidField].Uid? ==> a.uuid == kwargs[UuidField].uid)
      && (UuidField !in kwargs ==> a.uuid == uuid)
      && (Password !in kwargs ==> a.password == Blank)
      && (Password in kwargs && kwargs[Password].Text? ==> a.password == Raw(kwargs[Password].text))
      && (a.isActive <==> IsActive in kwargs && kwargs[IsActive] == Flag(true))
      && (a.isStaff <==> IsStaff in kwargs && kwargs[IsStaff] == Flag(true))
      && (a.isSuperuser <==> IsSuperuser in kwargs && kwargs[IsSuperuser] == Flag(true))
      && (a.emailVerified <==> EmailVerified in kwargs && kwargs[EmailVerified] == Flag(true))
      && (Email in kwargs && kwargs[Email].Text? ==> a.email == kwargs[Email].text)
      && (Email !in kwargs ==> a.email == "")
      && (Username in kwargs && kwargs[Username].Text? ==> a.username == kwargs[Username].text)
      && (Username !in kwargs ==> a.username == "")
  {
  }

  /** The nullable fields: each one named in the keyword arguments with a
      value of its column's type takes that value, and each one not named
      stays null (no name, address, postal code, slug or timestamp). */
  lemma ConstructNullableGivenOrNull(kwargs: map<Field, Value>, uuid: Uuid)
    ensures var a := Construct(kwargs, uuid);
      && (FirstName in kwargs && kwargs[FirstName].Text? ==> a.firstName == Some(kwargs[FirstName].text))
      && (FirstName !in kwargs ==> a.firstName.None?)
      && (LastName in kwargs && kwargs[LastName].Text? ==> a.lastName == Some(kwargs[LastName].text))
      && (LastName !in kwargs ==> a.lastName.None?)
      && (Address in kwargs && kwargs[Address].Text? ==> a.address == Some(kwargs[Address].text))
      && (Address !in kwargs ==> a.address.None?)
      && (City in kwargs && kwargs[City].Text? ==> a.city == Some(kwargs[City].text))
      && (City !in kwargs ==> a.city.None?)
      && (PostalCode in kwargs && kwargs[PostalCode].Int? ==> a.postalCode == Some(kwargs[PostalCode].number))
      && (PostalCode !in kwargs ==> a.postalCode.None?)
      && (Slug in kwargs && kwargs[Slug].Text? ==> a.slug == Some(kwargs[Slug].text))
      && (Slug !in kwargs ==> a.slug.None?)
      && (DateJoined in kwargs && kwargs[DateJoined].Time? ==> a.dateJoined == Some(kwargs[DateJoined].time))
      && (DateJoined !in kwargs ==> a.dateJoined.None?)
      && (LastLogin in kwargs && kwargs[LastLogin].Time? ==> a.lastLogin == Some(kwargs[LastLogin].time))
      && (LastLogin !in kwargs ==> a.lastLogin.None?)
  {
  }

  /** A User constructed without arguments holds every declared default:
      unverified, inactive, without staff or superuser rights, with empty
      email and username, no optional value, no slug and a blank password. */
  lemma FreshUserDefaults(uuid: Uuid)
    ensures Construct(map[], uuid) ==
      Account(uuid, None, None, "", "", None, None, None, None, None, false, false, false, false, None, Blank)
  {
  }

  // ---------------------------------------------------------------------
  // The pre_save hook `slug_generator`
  // ---------------------------------------------------------------------

  /** The slugs already stored in the table. */
  function SlugsOf(rows: map<Uuid, Account>): set<string> {
    set u | u in rows && rows[u].slug.Some? :: rows[u].slug.value
  }

  /** Before each save, an instance whose slug is empty or null gets one from
      the generator; any other instance is left as it is. */
  function PreSave(a: Account, used: set<string>, generate: (Account, set<string>) -> string): (r: Account)
    ensures r.(slug := a.slug) == a
    ensures TruthyText(a.slug) ==> r == a
    ensures !TruthyText(a.slug) ==> r.slug == Some(generate(a, used))
  {
    if TruthyText(a.slug) then a else a.(slug := Some(generate(a, used)))
  }

  /** The instance after a series of saves. Before each one the code may
      give every field but the slug a new value (edit.0); edit.1 is the set
      of slugs stored at that moment. */
  function SaveHistory(a: Account, edits: seq<(Account, set<string>)>,
                       generate: (Account, set<string>) -> string): Account
    decreases |edits|
  {
    if edits == [] then a
    else SaveHistory(PreSave(edits[0].0.(slug := a.slug), edits[0].1, generate), edits[1..], generate)
  }

  /** Once an instance holds a non-empty slug, no later save changes it,
      whatever else changes between the saves. */
  lemma {:induction false} SlugSetOnce(a: Account, edits: seq<(Account, set<string>)>,
                                       generate: (Account, set<string>) -> string)
    requires TruthyText(a.slug)
    ensures SaveHistory(a, edits, generate).slug == a.slug
    decreases |edits|
  {
    if edits != [] {
      var next := PreSave(edits[0].0.(slug := a.slug), edits[0].1, generate);
      SlugSetOnce(next, edits[1..], generate);
    }
  }

  /** The first save of an instance without a slug stores the generated one,
      and when that is non-empty it is the slug for good. */
  lemma SlugFixedByFirstSave(a: Account, used: set<string>, edits: seq<(Account, set<string>)>,
                             generate: (Account, set<string>) -> string)
    requires !TruthyText(a.slug) && generate(a, used) != ""
    ensures SaveHistory(PreSave(a, used, generate), edits, generate).slug == Some(generate(a, used))
  {
    SlugSetOnce(PreSave(a, used, generate), edits, generate);
  }

  // ---------------------------------------------------------------------
  // Model instances
  // ---------------------------------------------------------------------

  class User {
    var uuid: Uuid
    var firstName: Option<string>
    var lastName: Option<string>
    var email: string
    var username: string
    var address: Option<string>
    var postalCode: Option<int>
    var city: Option<string>
    var dateJoined: Option<Timestamp>
    var lastLogin: Option<Timestamp>
    var emailVerified: bool
    var isActive: bool
    var isStaff: bool
    var isSuperuser: bool
    var slug: Option<string>
    var password: Credential

    /** An instance holding the given field values (a constructed or a
        loaded one). */
    constructor FromRow(a: Account)
      ensures Row() == a
    {
      uuid, firstName, lastName, email, username := a.uuid, a.firstName, a.lastName, a.email, a.username;
      address, postalCode, city := a.address, a.postalCode, a.city;
      dateJoined, lastLogin := a.dateJoined, a.lastLogin;
      emailVerified, isActive, isStaff, isSuperuser := a.emailVerified, a.isActive, a.isStaff, a.isSuperuser;
      slug, password := a.slug, a.password;
    }

    /** The field values, as save would store them. */
    function Row(): Account
      reads this
    {
      Account(uuid, firstName, lastName, email, username, address, postalCode, city,
              dateJoined, lastLogin, emailVerified, isActive, isStaff, isSuperuser, slug, password)
    }

    method SetPassword(raw: Option<string>, encode: string -> string)
      modifies this
      ensures Row() == old(Row()).(password := PasswordFor(raw, encode))
    {
      password := PasswordFor(raw, encode);
    }

    /** The three assignments create_superuser makes before saving again. */
    method Promote()
      modifies this
      ensures Row() == old(Row()).(isActive := true, isStaff := true, isSuperuser := true)
    {
      isActive, isStaff, isSuperuser := true, true, true;
    }

    /** `__str__` */
    function Str(): string
      reads this
    {
      email
    }

    function HasPerm(perm: Option<string>, obj: Option<Account>): bool
      reads this
    {
      isStaff
    }

    function HasModulePerms(appLabel: Option<string>): bool {
      true
    }
  }

  /** has_perm answers is_staff whatever it is asked, has_module_perms always
      answers yes, and the string form of a user is its email. */
  lemma PermissionQueries(u: User, perm: Option<string>, obj: Option<Account>, appLabel: Option<string>)
    ensures u.HasPerm(perm, obj) == u.HasPerm(None, None) == u.isStaff
    ensures u.HasModulePerms(appLabel)
    ensures u.Str() == u.email
  {
  }

  // ---------------------------------------------------------------------
  // What create_user and create_superuser build
  // ---------------------------------------------------------------------

  /** The instance create_user builds from a matching email, before saving. */
  function NewUserRow(email: string, username: string, password: Option<string>,
                      uuid: Uuid, svc: Services): (a: Account)
    ensures a.isActive && a.emailVerified && !a.isStaff && !a.isSuperuser
    ensures a.email == svc.normalizeEmail(email) && a.username == username && a.uuid == uuid
    ensures a.password == PasswordFor(password, svc.encodePassword) && a.slug.None?
  {
    Construct(map[Email := Text(svc.normalizeEmail(email)), Username := Text(username)], uuid)
      .(password := PasswordFor(password, svc.encodePassword), isActive := true, emailVerified := true)
  }

  /** The row create_user stores: the new instance after its pre-save hook. */
  function CreatedUserRow(email: string, username: string, password: Option<string>,
                          uuid: Uuid, svc: Services, rows: map<Uuid, Account>): Account
  {
    PreSave(NewUserRow(email, username, password, uuid, svc), SlugsOf(rows), svc.uniqueSlug)
  }

  /** create_user stores an active, verified account without staff or
      superuser rights, holding the normalised email and the hashed (or
      unusable) password. */
  lemma CreatedUserFlags(email: string, username: string, password: Option<string>,
                         uuid: Uuid, svc: Services, rows: map<Uuid, Account>)
    ensures var a := CreatedUserRow(email, username, password, uuid, svc, rows);
      && a.isActive && a.emailVerified && !a.isStaff && !a.isSuperuser
      && a.email == svc.normalizeEmail(email) && a.uuid == uuid
      && a.password == PasswordFor(password, svc.encodePassword)
  {
  }

  /** The row create_superuser stores: create_user's row, saved once, then
      raised to active staff superuser and saved again. */
  function SuperuserRow(email: string, username: string, password: Option<string>,
                        uuid: Uuid, svc: Services, rows: map<Uuid, Account>): (a: Account)
    ensures a.isActive && a.isStaff && a.isSuperuser && a.emailVerified
    ensures a.email == svc.normalizeEmail(svc.normalizeEmail(email)) && a.uuid == uuid
  {
    var first := CreatedUserRow(svc.normalizeEmail(email), username, password, uuid, svc, rows);
    PreSave(first.(isActive := true, isStaff := true, isSuperuser := true),
            SlugsOf(rows[uuid := first]), svc.uniqueSlug)
  }

  // ---------------------------------------------------------------------
  // The table and its manager
  // ---------------------------------------------------------------------

  /** The uuids of the rows holding the given email. */
  function WithEmail(rows: map<Uuid, Account>, email: string): set<Uuid> {
    set u | u in rows && rows[u].email == email
  }

  /** A set holding two different elements has at least two. */
  lemma TwoMembers<T>(s: set<T>, x: T, y: T)
    requires x in s && y in s && x != y
    ensures |s| >= 2
  {
    var rest := s - {x};
    assert y in rest;
    assert s == rest + {x};
  }

  /** Writing a row twice under the same key keeps the second one. */
  /** Storing under a uuid not yet in the table adds exactly one key. */
  lemma InsertRow(rows: map<Uuid, Account>, u: Uuid, a: Account)
    requires u !in rows
    ensures rows[u := a].Keys == rows.Keys + {u} && |rows[u := a]| == |rows| + 1
  {}

  lemma OverwriteRow(rows: map<Uuid, Account>, u: Uuid, first: Account, second: Account)
    ensures rows[u := first][u := second] == rows[u := second]
  {
  }

  class UserManager {
    var rows: map<Uuid, Account>

    /** Every row is filed under its own uuid. */
    ghost predicate Valid()
      reads this
    {
      forall u | u in rows :: rows[u].uuid == u
    }

    constructor (initial: map<Uuid, Account>)
      requires forall u | u in initial :: initial[u].uuid == u
      ensures Valid() && rows == initial
    {
      rows := initial;
    }

    /** `user.save()`: the pre_save hook runs, then the row is written. */
    method Save(user: User, svc: Services)
      requires Valid()
      modifies this, user
      ensures Valid()
      ensures user.Row() == PreSave(old(user.Row()), SlugsOf(old(rows)), svc.uniqueSlug)
      ensures rows == old(rows)[user.uuid := user.Row()]
    {
      if !TruthyText(user.slug) {
        user.slug := Some(svc.uniqueSlug(user.Row(), SlugsOf(rows)));
      }
      rows := rows[user.uuid := user.Row()];
    }

    /** `User.objects.get(uuid=uid)`: a new instance loaded from the row. */
    method Get(uid: Uuid) returns (r: Result<User>)
      requires Valid()
      ensures uid !in rows ==> r == Failure(DoesNotExist)
      ensures uid in rows ==> r.Success? && fresh(r.value) && r.value.Row() == rows[uid]
    {
      if uid !in rows {
        return Failure(DoesNotExist);
      }
      var user := new User.FromRow(rows[uid]);
      return Success(user);
    }

    /** `User.objects.get(email=email)`: fails unless exactly one row holds
        the email. */
    method GetByEmail(email: string) returns (r: Result<User>)
      requires Valid()
      ensures |WithEmail(rows, email)| == 0 ==> r == Failure(DoesNotExist)
      ensures |WithEmail(rows, email)| > 1 ==> r == Failure(MultipleObjectsReturned)
      ensures |WithEmail(rows, email)| == 1 ==>
        && r.Success? && fresh(r.value)
        && WithEmail(rows, email) == {r.value.uuid}
        && r.value.Row() == rows[r.value.uuid]
    {
      var found := WithEmail(rows, email);
      if |found| == 0 {
        return Failure(DoesNotExist);
      } else if |found| > 1 {
        return Failure(MultipleObjectsReturned);
      }
      var u :| u in found;
      assert found == {u} by {
        forall v | v in found ensures v == u {
          if v != u {
            TwoMembers(found, u, v);
          }
        }
      }
      var user := new User.FromRow(rows[u]);
      return Success(user);
    }

    /** `create_user`: a non-matching email raises before anything is built
        or saved; otherwise the new instance is built, its password set,
        made active and verified, and saved. */
    method CreateUser(email: string, username: string, password: Option<string>,
                      freshUuid: Uuid, svc: Services) returns (r: Result<User>)
      requires Valid() && freshUuid !in rows
      modifies this
      ensures Valid()
      ensures !EmailRegex.FullMatch(email) ==>
        r == Failure(ValueError(InvalidEmailMessage)) && rows == old(rows)
      ensures EmailRegex.FullMatch(email) ==>
        && r.Success? && fresh(r.value)
        && r.value.Row() == CreatedUserRow(email, username, password, freshUuid, svc, old(rows))
        && rows.Keys == old(rows).Keys + {freshUuid} && |rows| == |old(rows)| + 1
        && rows == old(rows)[freshUuid := r.value.Row()]
    {
      if !EmailRegex.FullMatch(email) {
        return Failure(ValueError(InvalidEmailMessage));
      }
      var kwargs := map[Email := Text(svc.normalizeEmail(email)), Username := Text(username)];
      var user := new User.FromRow(Construct(kwargs, freshUuid));
      user.SetPassword(password, svc.encodePassword);
      user.isActive := true;
      user.emailVerified := true;
      assert user.Row() == NewUserRow(email, username, password, freshUuid, svc);
      Save(user, svc);
      InsertRow(old(rows), freshUuid, user.Row());
      return Success(user);
    }

    /** `create_superuser`: create_user on the normalised email, then the
        three flags are set and the instance saved again. */
    method CreateSuperuser(email: string, username: string, password: Option<string>,
                           freshUuid: Uuid, svc: Services) returns (r: Result<User>)
      requires Valid() && freshUuid !in rows
      modifies this
      ensures Valid()
      ensures !EmailRegex.FullMatch(svc.normalizeEmail(email)) ==>
        r == Failure(ValueError(InvalidEmailMessage)) && rows == old(rows)
      ensures EmailRegex.FullMatch(svc.normalizeEmail(email)) ==>
        && r.Success? && fresh(r.value)
        && r.value.Row() == SuperuserRow(email, username, password, freshUuid, svc, old(rows))
        && rows.Keys == old(rows).Keys + {freshUuid} && |rows| == |old(rows)| + 1
        && rows == old(rows)[freshUuid := r.value.Row()]
    {
      r := CreateUser(svc.normalizeEmail(email), username, password, freshUuid, svc);
      if r.Failure? {
        return;
      }
      var user := r.value;
      ghost var first := user.Row();
      user.Promote();
      Save(user, svc);
      OverwriteRow(old(rows), freshUuid, first, user.Row());
      InsertRow(old(rows), freshUuid, user.Row());
    }
  }
}
