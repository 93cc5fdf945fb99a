/** `UserSerializer`: self-registration through the serializer's `create`,
    and the serialized form of an account, where the password is
    write-only. */
module Serializers {
  import opened Values
  import opened Models
  import EmailRegex

  // The serializer lists every field of the model.

  /** Fields the framework makes read-only: the uuid is not editable and the
      two timestamps are filled in automatically. */
  predicate ReadOnly(f: Field) {
    f == UuidField || f == DateJoined || f == LastLogin
  }

  /** `extra_kwargs = {'password': {'write_only': True}}` */
  predicate WriteOnly(f: Field) {
    f == Password
  }

  /** Data the serializer's validation can hand to `create`: writable
      fields only, each value fitting its column. */
  predicate Validated(d: map<Field, Value>) {
    forall f | f in d :: !ReadOnly(f) && FieldValueFits(f, d[f])
  }

  /** `validated_data.pop('password', None)` */
  function PoppedPassword(d: map<Field, Value>): Option<string> {
    if Password in d && d[Password].Text? then Some(d[Password].text) else None
  }

  /** The instance `create` builds, before its save: the model constructed
      from the validated data without the password, whose password is then
      set when one was supplied. */
  function RegistrationInstance(d: map<Field, Value>, uuid: Uuid, encode: string -> string): Account {
    var a := Construct(d - {Password}, uuid);
    match PoppedPassword(d)
    case None => a
    case Some(p) => a.(password := Encoded(encode(p)))
  }

  /** The row `create` stores: that instance after its pre-save hook. */
  function RegistrationRow(d: map<Field, Value>, uuid: Uuid, svc: Services,
                           rows: map<Uuid, Account>): Account {
    PreSave(RegistrationInstance(d, uuid, svc.encodePassword), SlugsOf(rows), svc.uniqueSlug)
  }

  /** `UserSerializer.create`: pop the password, construct, set the password
      when one was given, save once (which fires the slug hook), return the
      instance. `freshUuid` is the uuid4 default drawn for the new instance,
      not yet a key of the table. */
  method Create(store: UserManager, validatedData: map<Field, Value>, freshUuid: Uuid, svc: Services)
    returns (instance: User)
    requires store.Valid() && Validated(validatedData) && freshUuid !in store.rows
    modifies store
    ensures store.Valid() && fresh(instance)
    ensures instance.Row() == RegistrationRow(validatedData, freshUuid, svc, old(store.rows))
    ensures store.rows.Keys == old(store.rows).Keys + {freshUuid} && |store.rows| == |old(store.rows)| + 1
    ensures store.rows == old(store.rows)[freshUuid := instance.Row()]
  {
    var data := validatedData;
    var password := PoppedPassword(data);
    data := data - {Password};
    instance := new User.FromRow(Construct(data, freshUuid));
    if password.Some? {
      instance.SetPassword(password, svc.encodePassword);
    }
    store.Save(instance, svc);
    InsertRow(old(store.rows), freshUuid, instance.Row());
  }

  /** The instance `create` builds has the new uuid, no timestamp, and the
      email and username supplied. */
  lemma RegistrationInstanceIdentity(d: map<Field, Value>, uuid: Uuid, encode: string -> string)
    requires Validated(d)
    ensures var a := RegistrationInstance(d, uuid, encode);
      && a.uuid == uuid
      && a.dateJoined.None? && a.lastLogin.None?
      && (Email in d ==> a.email == d[Email].text)
      && (Username in d ==> a.username == d[Username].text)
  {
    assert UuidField !in d && DateJoined !in d && LastLogin !in d;
    PoppedText(d, Email);
    PoppedText(d, Username);
  }

  /** A text field supplied to registration reaches the instance's keyword
      arguments unchanged. */
  lemma PoppedText(d: map<Field, Value>, f: Field)
    requires Validated(d) && (f == Email || f == Username)
    ensures f in d ==> TextArg(d - {Password}, f) == d[f].text
  {
    if f in d {
      assert FieldValueFits(f, d[f]);
    }
  }

  /** Each optional field of the instance `create` builds holds the value
      supplied, and None when none was or it was null. */
  lemma RegistrationInstanceOptional(d: map<Field, Value>, uuid: Uuid, encode: string -> string)
    ensures var a := RegistrationInstance(d, uuid, encode);
      && a.firstName == (if FirstName in d && d[FirstName].Text? then Some(d[FirstName].text) else None)
      && a.lastName == (if LastName in d && d[LastName].Text? then Some(d[LastName].text) else None)
      && a.address == (if Address in d && d[Address].Text? then Some(d[Address].text) else None)
      && a.city == (if City in d && d[City].Text? then Some(d[City].text) else None)
      && a.postalCode == (if PostalCode in d && d[PostalCode].Int? then Some(d[PostalCode].number) else None)
  {
  }

  /** The password of the instance `create` builds is the hasher's encoding
      when one was supplied and the blank default otherwise, never the raw
      text. */
  lemma RegistrationInstancePassword(d: map<Field, Value>, uuid: Uuid, encode: string -> string)
    requires Validated(d)
    ensures var a := RegistrationInstance(d, uuid, encode);
      && (Password in d ==> a.password == Encoded(encode(d[Password].text)))
      && (Password !in d ==> a.password == Blank)
      && !a.password.Raw?
  {
    assert Password in d ==> FieldValueFits(Password, d[Password]);
  }

  /** Each flag of the instance `create` builds is true exactly when the
      caller supplied it as true, so a flag left out keeps its default of
      false. */
  lemma RegistrationInstanceFlags(d: map<Field, Value>, uuid: Uuid, encode: string -> string)
    ensures var a := RegistrationInstance(d, uuid, encode);
      && (a.isActive <==> IsActive in d && d[IsActive] == Flag(true))
      && (a.emailVerified <==> EmailVerified in d && d[EmailVerified] == Flag(true))
      && (a.isStaff <==> IsStaff in d && d[IsStaff] == Flag(true))
      && (a.isSuperuser <==> IsSuperuser in d && d[IsSuperuser] == Flag(true))
  {
    PoppedFlag(d, IsActive);
    PoppedFlag(d, EmailVerified);
    PoppedFlag(d, IsStaff);
    PoppedFlag(d, IsSuperuser);
  }

  /** Popping the password leaves every flag argument as it was. */
  lemma PoppedFlag(d: map<Field, Value>, f: Field)
    requires f in FlagFields
    ensures FlagArg(d - {Password}, f) <==> f in d && d[f] == Flag(true)
  {
  }

  /** The stored row is that instance with, at most, a generated slug. */
  lemma RegistrationRowIsInstance(d: map<Field, Value>, uuid: Uuid, svc: Services, rows: map<Uuid, Account>)
    ensures var inst := RegistrationInstance(d, uuid, svc.encodePassword);
      RegistrationRow(d, uuid, svc, rows).(slug := inst.slug) == inst
  {
  }

  /** A registration that names no flag yields an inactive, unverified,
      unprivileged account. */
  lemma RegistrationIsInactive(d: map<Field, Value>, uuid: Uuid, svc: Services, rows: map<Uuid, Account>)
    requires Validated(d) && d.Keys !! FlagFields
    ensures var a := RegistrationRow(d, uuid, svc, rows);
      !a.isActive && !a.emailVerified && !a.isStaff && !a.isSuperuser
  {
    RegistrationInstanceFlags(d, uuid, svc.encodePassword);
    RegistrationRowIsInstance(d, uuid, svc, rows);
  }

  /** Building the instance from the data with the password still in it
      would store the raw text; popping it first leaves the blank default
      until set_password runs. */
  lemma PopKeepsRawPasswordOut(d: map<Field, Value>, uuid: Uuid, encode: string -> string)
    requires Validated(d) && Password in d
    ensures Construct(d, uuid).password == Raw(d[Password].text)
    ensures Construct(d - {Password}, uuid).password == Blank
    ensures RegistrationInstance(d, uuid, encode).password == Encoded(encode(d[Password].text))
  {
    assert FieldValueFits(Password, d[Password]);
  }

  /** A supplied slug that is non-empty is kept; otherwise the generator's
      slug is stored. */
  lemma RegistrationSlug(d: map<Field, Value>, uuid: Uuid, svc: Services, rows: map<Uuid, Account>)
    requires Validated(d)
    ensures var a := RegistrationRow(d, uuid, svc, rows);
      && (Slug in d && d[Slug].Text? && d[Slug].text != "" ==> a.slug == Some(d[Slug].text))
      && (!(Slug in d && d[Slug].Text? && d[Slug].text != "") ==>
            a.slug == Some(svc.uniqueSlug(RegistrationInstance(d, uuid, svc.encodePassword), SlugsOf(rows))))
  {
  }

  /** The stored row keeps the new uuid and the email supplied. */
  lemma RegistrationRowIdentity(d: map<Field, Value>, uuid: Uuid, svc: Services, rows: map<Uuid, Account>)
    requires Validated(d)
    ensures var a := RegistrationRow(d, uuid, svc, rows);
      a.uuid == uuid && (Email in d ==> a.email == d[Email].text)
  {
    RegistrationInstanceIdentity(d, uuid, svc.encodePassword);
    RegistrationRowIsInstance(d, uuid, svc, rows);
  }

  /** Registration never consults the manager's email pattern: whatever
      address the serializer validated is stored as given, including one
      create_user would reject. */
  lemma RegistrationBypassesEmailPattern(d: map<Field, Value>, uuid: Uuid, svc: Services,
                                         rows: map<Uuid, Account>)
    requires Validated(d) && Email in d && !EmailRegex.FullMatch(d[Email].text)
    ensures RegistrationRow(d, uuid, svc, rows).email == d[Email].text
  {
    RegistrationRowIdentity(d, uuid, svc, rows);
  }

  /** Such an address exists: "a-b@c.de" passes the serializer, fails the
      manager's pattern, and is stored. */
  lemma RegistrationBypassWitness(uuid: Uuid, svc: Services, rows: map<Uuid, Account>)
    ensures var d := map[Email := Text("a-b@c.de"), Username := Text("ab")];
      && Validated(d)
      && !EmailRegex.FullMatch("a-b@c.de")
      && RegistrationRow(d, uuid, svc, rows).email == "a-b@c.de"
  {
    SampleRegistrationStored(uuid, svc, rows);
    EmailRegex.HyphenBeforeAtRejected("a-b@c.de", 1, 3);
  }

  /** The sample registration is valid input and its email is stored. */
  lemma SampleRegistrationStored(uuid: Uuid, svc: Services, rows: map<Uuid, Account>)
    ensures var d := map[Email := Text("a-b@c.de"), Username := Text("ab")];
      && Validated(d)
      && RegistrationRow(d, uuid, svc, rows).email == "a-b@c.de"
  {
    var d := map[Email := Text("a-b@c.de"), Username := Text("ab")];
    assert Validated(d);
    RegistrationRowIdentity(d, uuid, svc, rows);
  }

  // ---------------------------------------------------------------------
  // Serialized output
  // ---------------------------------------------------------------------

  function NullableText(o: Option<string>): Value {
    if o.Some? then Text(o.value) else Null
  }

  function NullableTime(o: Option<Timestamp>): Value {
    if o.Some? then Time(o.value) else Null
  }

  /** The serialized value of one field of an account. */
  function Column(a: Account, f: Field): Value {
    match f
    case UuidField => Uid(a.uuid)
    case FirstName => NullableText(a.firstName)
    case LastName => NullableText(a.lastName)
    case Email => Text(a.email)
    case Username => Text(a.username)
    case Address => NullableText(a.address)
    case City => NullableText(a.city)
    case PostalCode => if a.postalCode.Some? then Int(a.postalCode.value) else Null
    case Password => Null  // write-only: the password has no serialized value
    case EmailVerified => Flag(a.emailVerified)
    case DateJoined => NullableTime(a.dateJoined)
    case Slug => NullableText(a.slug)
    case LastLogin => NullableTime(a.lastLogin)
    case IsActive => Flag(a.isActive)
    case IsStaff => Flag(a.isStaff)
    case IsSuperuser => Flag(a.isSuperuser)
  }

  /** The serialized form of an account: one entry per field that is not
      write-only, so never the password. */
  function Representation(a: Account): (out: map<Field, Value>)
    ensures forall f :: f in out <==> !WriteOnly(f)
  {
    map f: Field | !WriteOnly(f) :: Column(a, f)
  }

  /** The part of a serialized account that may be sent back as input. */
  function WritablePart(out: map<Field, Value>): map<Field, Value> {
    map f | f in out && !ReadOnly(f) :: out[f]
  }

  /** Each writable field of a serialized account survives into its
      writable part unchanged. */
  lemma WritableColumn(a: Account, f: Field)
    requires !WriteOnly(f) && !ReadOnly(f)
    ensures f in WritablePart(Representation(a))
    ensures WritablePart(Representation(a))[f] == Column(a, f)
  {
  }

  /** The writable part of a serialized account is acceptable input. */
  lemma RepresentationIsValidInput(a: Account)
    ensures Validated(WritablePart(Representation(a)))
  {
    var w := WritablePart(Representation(a));
    forall f | f in w
      ensures !ReadOnly(f) && FieldValueFits(f, w[f])
    {
      WritableColumn(a, f);
    }
  }

  /** Serializing an account and constructing from the writable part of the
      output gives back the account, except for what the output cannot
      carry: the write-only password, the read-only timestamps and the uuid,
      which the new instance draws afresh. */
  lemma RepresentationRoundTrip(a: Account, uuid: Uuid)
    ensures Construct(WritablePart(Representation(a)), uuid)
      == a.(uuid := uuid, password := Blank, dateJoined := None, lastLogin := None)
  {
    var w := WritablePart(Representation(a));
    forall f | !ReadOnly(f) && !WriteOnly(f)
      ensures f in w && w[f] == Column(a, f)
    {
      WritableColumn(a, f);
    }
    assert UuidField !in w && Password !in w && DateJoined !in w && LastLogin !in w;
    ConstructFromColumns(w, a, uuid);
  }

  /** Keyword arguments that carry every writable column of an account and
      nothing for the uuid, the password or the timestamps construct that
      account, with a fresh uuid and the defaults for the rest. */
  lemma ConstructFromColumns(w: map<Field, Value>, a: Account, uuid: Uuid)
    requires UuidField !in w && Password !in w && DateJoined !in w && LastLogin !in w
    requires forall f | !ReadOnly(f) && !WriteOnly(f) :: f in w && w[f] == Column(a, f)
    ensures Construct(w, uuid) == a.(uuid := uuid, password := Blank, dateJoined := None, lastLogin := None)
  {
    ConstructFlags(w, a);
    ConstructTexts(w, a);
    ConstructIdentity(w, a);
  }

  lemma ConstructFlags(w: map<Field, Value>, a: Account)
    requires forall f | !ReadOnly(f) && !WriteOnly(f) :: f in w && w[f] == Column(a, f)
    ensures FlagArg(w, EmailVerified) == a.emailVerified && FlagArg(w, IsActive) == a.isActive
    ensures FlagArg(w, IsStaff) == a.isStaff && FlagArg(w, IsSuperuser) == a.isSuperuser
  {
    assert w[EmailVerified] == Column(a, EmailVerified);
    assert w[IsActive] == Column(a, IsActive);
    assert w[IsStaff] == Column(a, IsStaff);
    assert w[IsSuperuser] == Column(a, IsSuperuser);
  }

  lemma ConstructTexts(w: map<Field, Value>, a: Account)
    requires forall f | !ReadOnly(f) && !WriteOnly(f) :: f in w && w[f] == Column(a, f)
    ensures NullableTextArg(w, FirstName) == a.firstName && NullableTextArg(w, LastName) == a.lastName
    ensures NullableTextArg(w, Address) == a.address && NullableTextArg(w, City) == a.city
    ensures NullableTextArg(w, Slug) == a.slug
  {
    assert w[FirstName] == Column(a, FirstName);
    assert w[LastName] == Column(a, LastName);
    assert w[Address] == Column(a, Address);
    assert w[City] == Column(a, City);
    assert w[Slug] == Column(a, Slug);
  }

  lemma ConstructIdentity(w: map<Field, Value>, a: Account)
    requires forall f | !ReadOnly(f) && !WriteOnly(f) :: f in w && w[f] == Column(a, f)
    ensures TextArg(w, Email) == a.email && TextArg(w, Username) == a.username
    ensures NullableIntArg(w, PostalCode) == a.postalCode
  {
    assert w[Email] == Column(a, Email);
    assert w[Username] == Column(a, Username);
    assert w[PostalCode] == Column(a, PostalCode);
  }
}
