/** The account endpoints: registration, activation, the forgot-password
    and reset-password pair, and the profile view.

    Each endpoint that changes the table is a method on the UserManager's
    rows, proved equal to a pure step function; the lemmas about the
    endpoints are stated on those step functions. Outgoing mail is returned
    as a value instead of being sent. */
module Api {
  import opened Values
  import opened Models
  import opened Serializers

  /** What an endpoint hands back to the framework. */
  datatype Outcome =
    | Response(status: int, body: map<string, Value>)
    | NoResponse            // the view returns None
    | Raised(error: ErrorKind)

  /** An email the endpoint sends: recipient, uid and token for the link. */
  datatype Mail = Mail(to: string, uid: Uuid, token: string)

  /** The outcome of one request, the table after it and the mail sent. */
  datatype Step = Step(outcome: Outcome, rows: map<Uuid, Account>, mail: Option<Mail>)

  const HTTP_200_OK := 200
  const HTTP_201_CREATED := 201
  const HTTP_202_ACCEPTED := 202
  const HTTP_403_FORBIDDEN := 403
  const HTTP_500_INTERNAL_SERVER_ERROR := 500

  const ResetMailSentMessage := "We have sent you an email with the link to reset your password"

  function Status(code: int): Outcome {
    Response(code, map[])
  }

  // ---------------------------------------------------------------------
  // Registration: UserCreateAPI.post
  // ---------------------------------------------------------------------

  /** Registration: when validation produced data, the serializer creates
      and saves the account, an activation mail goes to its email and the
      answer is 201; otherwise the answer is 500. */
  function RegisterStep(rows: map<Uuid, Account>, validated: Option<map<Field, Value>>,
                        freshUuid: Uuid, svc: Services): Step
  {
    match validated
    case None => Step(Status(HTTP_500_INTERNAL_SERVER_ERROR), rows, None)
    case Some(d) =>
      var a := RegistrationRow(d, freshUuid, svc, rows);
      Step(Status(HTTP_201_CREATED), rows[freshUuid := a], Some(Mail(a.email, a.uuid, svc.makeToken(a))))
  }

  /** 201 exactly when validation passed, and then one new row holding the
      registration and one activation mail to the address registered; 500
      otherwise, with nothing saved and nothing sent. The uuid drawn for the
      new instance is not yet a key of the table. */
  lemma RegisterCreatedIffValid(rows: map<Uuid, Account>, validated: Option<map<Field, Value>>,
                                freshUuid: Uuid, svc: Services)
    requires validated.Some? ==> Validated(validated.value)
    requires freshUuid !in rows
    ensures var s := RegisterStep(rows, validated, freshUuid, svc);
      && (s.outcome == Status(HTTP_201_CREATED) <==> validated.Some?)
      && (validated.None? ==> s.outcome == Status(HTTP_500_INTERNAL_SERVER_ERROR) && s.rows == rows && s.mail.None?)
      && (validated.Some? ==>
            && s.rows.Keys == rows.Keys + {freshUuid} && |s.rows| == |rows| + 1
            && s.rows[freshUuid] == RegistrationRow(validated.value, freshUuid, svc, rows)
            && (forall u | u in rows && u != freshUuid :: s.rows[u] == rows[u])
            && s.mail == Some(Mail(s.rows[freshUuid].email, freshUuid, svc.makeToken(s.rows[freshUuid]))))
  {
    if validated.Some? {
      RegistrationRowIdentity(validated.value, freshUuid, svc, rows);
    }
  }

  method Register(store: UserManager, validated: Option<map<Field, Value>>, freshUuid: Uuid, svc: Services)
    returns (outcome: Outcome, mail: Option<Mail>)
    requires store.Valid() && freshUuid !in store.rows
    requires validated.Some? ==> Validated(validated.value)
    modifies store
    ensures store.Valid()
    ensures Step(outcome, store.rows, mail) == RegisterStep(old(store.rows), validated, freshUuid, svc)
  {
    if validated.None? {
      return Status(HTTP_500_INTERNAL_SERVER_ERROR), None;
    }
    var newUser := Create(store, validated.value, freshUuid, svc);
    mail := Some(Mail(newUser.email, newUser.uuid, svc.makeToken(newUser.Row())));
    outcome := Status(HTTP_201_CREATED);
  }

  // ---------------------------------------------------------------------
  // Activation: ActiveAccountAPI.get
  // ---------------------------------------------------------------------

  /** Activation: load the account by uuid (raising when there is none);
      when the token checks, set is_active, save and answer 202, otherwise
      return no response. The assignment meant for email_verified goes to a
      misspelled attribute that is not a field, so the flag is not saved. */
  function ActivateStep(rows: map<Uuid, Account>, uid: Uuid, token: string, svc: Services): Step {
    if uid !in rows then Step(Raised(DoesNotExist), rows, None)
    else if svc.checkToken(rows[uid], token) then
      var a := PreSave(rows[uid].(isActive := true), SlugsOf(rows), svc.uniqueSlug);
      Step(Status(HTTP_202_ACCEPTED), rows[uid := a], None)
    else Step(NoResponse, rows, None)
  }

  /** 202 exactly when the account exists and the token checks; then the
      account is active and every other field but a missing slug is as
      before, email_verified included. */
  lemma ActivateAcceptedIffToken(rows: map<Uuid, Account>, uid: Uuid, token: string, svc: Services)
    ensures var s := ActivateStep(rows, uid, token, svc);
      && (s.outcome == Status(HTTP_202_ACCEPTED) <==> uid in rows && svc.checkToken(rows[uid], token))
      && (s.outcome == Status(HTTP_202_ACCEPTED) ==>
            && s.rows.Keys == rows.Keys
            && s.rows[uid].isActive
            && s.rows[uid].emailVerified == rows[uid].emailVerified
            && s.rows[uid].(slug := rows[uid].slug) == rows[uid].(isActive := true)
            && (forall u | u in rows && u != uid :: s.rows[u] == rows[u]))
  {
  }

  /** An account activated through the endpoint stays unverified when it
      was unverified. */
  lemma ActivationLeavesUnverified(rows: map<Uuid, Account>, uid: Uuid, token: string, svc: Services)
    requires uid in rows && !rows[uid].emailVerified && svc.checkToken(rows[uid], token)
    ensures var s := ActivateStep(rows, uid, token, svc);
      s.rows[uid].isActive && !s.rows[uid].emailVerified
  {
    ActivateAcceptedIffToken(rows, uid, token, svc);
  }

  /** Without a passing token check nothing is saved and there is no 202:
      an unknown uuid raises DoesNotExist and a known one gets no response. */
  lemma ActivateFailureChangesNothing(rows: map<Uuid, Account>, uid: Uuid, token: string, svc: Services)
    requires !(uid in rows && svc.checkToken(rows[uid], token))
    ensures var s := ActivateStep(rows, uid, token, svc);
      && s.rows == rows
      && s.outcome == (if uid in rows then NoResponse else Raised(DoesNotExist))
  {
  }

  method Activate(store: UserManager, uid: Uuid, token: string, svc: Services) returns (outcome: Outcome)
    requires store.Valid()
    modifies store
    ensures store.Valid()
    ensures Step(outcome, store.rows, None) == ActivateStep(old(store.rows), uid, token, svc)
  {
    var found := store.Get(uid);
    if found.Failure? {
      return Raised(found.error);
    }
    var user := found.value;
    if svc.checkToken(user.Row(), token) {
      user.isActive := true;
      store.Save(user, svc);
      return Status(HTTP_202_ACCEPTED);
    }
    return NoResponse;
  }

  // ---------------------------------------------------------------------
  // Forgot password: ForgotPasswordAPI.post
  // ---------------------------------------------------------------------

  /** The success body of the forgot-password endpoint. */
  const ForgotBody: map<string, Value> :=
    map["status" := Text("Success"), "message" := Text(ResetMailSentMessage)]

  /** Forgot password reads the table and never writes it. A missing
      "email" key raises KeyError; an email held by no row or by several
      raises the lookup error; an email held by exactly one row answers 200
      and mails that account a reset link with a fresh token. */
  method ForgotPassword(store: UserManager, data: map<string, string>, svc: Services)
    returns (outcome: Outcome, mail: Option<Mail>)
    requires store.Valid()
    ensures "email" !in data ==> outcome == Raised(KeyError("email")) && mail.None?
    ensures "email" in data && |WithEmail(store.rows, data["email"])| == 0 ==>
      outcome == Raised(DoesNotExist) && mail.None?
    ensures "email" in data && |WithEmail(store.rows, data["email"])| > 1 ==>
      outcome == Raised(MultipleObjectsReturned) && mail.None?
    ensures outcome.Response? <==> "email" in data && |WithEmail(store.rows, data["email"])| == 1
    ensures outcome.Response? ==>
      && outcome == Response(HTTP_200_OK, ForgotBody)
      && mail.Some?
      && WithEmail(store.rows, data["email"]) == {mail.value.uid}
      && mail.value == Mail(data["email"], mail.value.uid, svc.makeToken(store.rows[mail.value.uid]))
  {
    if "email" !in data {
      return Raised(KeyError("email")), None;
    }
    var found := store.GetByEmail(data["email"]);
    if found.Failure? {
      return Raised(found.error), None;
    }
    var user := found.value;
    mail := Some(Mail(user.email, user.uuid, svc.makeToken(user.Row())));
    outcome := Response(HTTP_200_OK, ForgotBody);
  }

  // ---------------------------------------------------------------------
  // Reset password: ResetPasswordAPI.post
  // ---------------------------------------------------------------------

  /** The reset guard, in Python's evaluation order: "password1" is read
      first, then the current password is checked against it, and only when
      it differs is "password2" read; the token is checked last. */
  function ResetStep(rows: map<Uuid, Account>, uid: Uuid, token: string, data: map<string, string>,
                     svc: Services): Step {
    if uid !in rows then Step(Raised(DoesNotExist), rows, None)
    else if "password1" !in data then Step(Raised(KeyError("password1")), rows, None)
    else if svc.checkPassword(rows[uid].password, data["password1"]) then
      Step(Status(HTTP_403_FORBIDDEN), rows, None)
    else if "password2" !in data then Step(Raised(KeyError("password2")), rows, None)
    else if data["password1"] == data["password2"] && svc.checkToken(rows[uid], token) then
      var a := PreSave(rows[uid].(password := Encoded(svc.encodePassword(data["password1"]))),
                       SlugsOf(rows), svc.uniqueSlug);
      Step(Status(HTTP_200_OK), rows[uid := a], None)
    else Step(Status(HTTP_403_FORBIDDEN), rows, None)
  }

  /** The three-part guard of a reset for an account that exists. */
  predicate ResetAllowed(current: Account, token: string, p1: string, p2: string, svc: Services) {
    !svc.checkPassword(current.password, p1) && p1 == p2 && svc.checkToken(current, token)
  }

  /** 200 exactly when the account exists, both fields are present and the
      guard holds; then the account's password is the encoding of
      password1, every other field but a missing slug is as before, and
      every other account is untouched. */
  lemma ResetOkIffGuard(rows: map<Uuid, Account>, uid: Uuid, token: string, data: map<string, string>,
                        svc: Services)
    ensures var s := ResetStep(rows, uid, token, data, svc);
      && (s.outcome == Status(HTTP_200_OK) <==>
            && uid in rows && "password1" in data && "password2" in data
            && ResetAllowed(rows[uid], token, data["password1"], data["password2"], svc))
      && (s.outcome == Status(HTTP_200_OK) ==>
            && s.rows.Keys == rows.Keys
            && s.rows[uid].password == Encoded(svc.encodePassword(data["password1"]))
            && s.rows[uid].(slug := rows[uid].slug) == rows[uid].(password := s.rows[uid].password)
            && (forall u | u in rows && u != uid :: s.rows[u] == rows[u]))
  {
  }

  /** Any other outcome leaves the table as it was; with the account found
      and both fields present, a failing guard answers 403. */
  lemma ResetRefusalChangesNothing(rows: map<Uuid, Account>, uid: Uuid, token: string,
                                   data: map<string, string>, svc: Services)
    requires ResetStep(rows, uid, token, data, svc).outcome != Status(HTTP_200_OK)
    ensures ResetStep(rows, uid, token, data, svc).rows == rows
    ensures uid in rows && "password1" in data && "password2" in data ==>
      ResetStep(rows, uid, token, data, svc).outcome == Status(HTTP_403_FORBIDDEN)
  {
  }

  /** Mismatched confirmation values are refused with 403 and change
      nothing, whatever the token. */
  lemma ResetMismatchForbidden(rows: map<Uuid, Account>, uid: Uuid, token: string,
                               data: map<string, string>, svc: Services)
    requires uid in rows && "password1" in data && "password2" in data
    requires data["password1"] != data["password2"]
    ensures ResetStep(rows, uid, token, data, svc) == Step(Status(HTTP_403_FORBIDDEN), rows, None)
  {
  }

  /** A reset to the current password is refused before "password2" is
      even read. */
  lemma ResetToCurrentForbidden(rows: map<Uuid, Account>, uid: Uuid, token: string,
                                data: map<string, string>, svc: Services)
    requires uid in rows && "password1" in data
    requires svc.checkPassword(rows[uid].password, data["password1"])
    ensures ResetStep(rows, uid, token, data, svc) == Step(Status(HTTP_403_FORBIDDEN), rows, None)
  {
  }

  method ResetPassword(store: UserManager, uid: Uuid, token: string, data: map<string, string>,
                       svc: Services) returns (outcome: Outcome)
    requires store.Valid()
    modifies store
    ensures store.Valid()
    ensures Step(outcome, store.rows, None) == ResetStep(old(store.rows), uid, token, data, svc)
  {
    var found := store.Get(uid);
    if found.Failure? {
      return Raised(found.error);
    }
    var user := found.value;
    if "password1" !in data {
      return Raised(KeyError("password1"));
    }
    if svc.checkPassword(user.password, data["password1"]) {
      return Status(HTTP_403_FORBIDDEN);
    }
    if "password2" !in data {
      return Raised(KeyError("password2"));
    }
    if data["password1"] == data["password2"] && svc.checkToken(user.Row(), token) {
      user.SetPassword(Some(data["password1"]), svc.encodePassword);
      store.Save(user, svc);
      return Status(HTTP_200_OK);
    }
    return Status(HTTP_403_FORBIDDEN);
  }

  // ---------------------------------------------------------------------
  // Profile: ProfileAPI.get
  // ---------------------------------------------------------------------

  /** The keys the profile dict display names. */
  datatype ProfileKey =
    | UuidKey | FirstnameKey | LastnameKey | EmailKey | UsernameKey | AddressKey | CityKey | PostalCodeKey

  /** The key as it appears in the response body. */
  function KeyName(k: ProfileKey): string {
    match k
    case UuidKey => "uuid"
    case FirstnameKey => "firstname"
    case LastnameKey => "lastname"
    case EmailKey => "email"
    case UsernameKey => "username"
    case AddressKey => "address"
    case CityKey => "city"
    case PostalCodeKey => "postal_code"
  }

  /** The profile view's answer: a status and the dict it built. */
  datatype ProfileResponse = ProfileResponse(status: int, data: map<ProfileKey, Value>)

  /** A Python dict display: entries are inserted left to right, so a
      repeated key keeps the value of its last entry. */
  function DictDisplay<K>(entries: seq<(K, Value)>): map<K, Value>
    decreases |entries|
  {
    if entries == [] then map[]
    else DictDisplay(entries[..|entries| - 1])[entries[|entries| - 1].0 := entries[|entries| - 1].1]
  }

  /** The keys of a dict display are the keys of its entries, and each key
      maps to the value of the last entry naming it. */
  lemma {:induction false} DictDisplayLastWins<K>(entries: seq<(K, Value)>)
    ensures forall k :: k in DictDisplay(entries) <==> exists i | 0 <= i < |entries| :: entries[i].0 == k
    ensures forall i | 0 <= i < |entries| && (forall j | i < j < |entries| :: entries[j].0 != entries[i].0) ::
      DictDisplay(entries)[entries[i].0] == entries[i].1
    decreases |entries|
  {
    if entries != [] {
      var n := |entries| - 1;
      var init := entries[..n];
      DictDisplayLastWins(init);
      forall k
        ensures k in DictDisplay(entries) <==> exists i | 0 <= i < |entries| :: entries[i].0 == k
      {
        if k in DictDisplay(init) {
          var i :| 0 <= i < |init| && init[i].0 == k;
          assert entries[i].0 == k;
        }
        if exists i | 0 <= i < |entries| :: entries[i].0 == k {
          var i :| 0 <= i < |entries| && entries[i].0 == k;
          if i < n {
            assert init[i].0 == k;
          }
        }
      }
      forall i | 0 <= i < |entries| && (forall j | i < j < |entries| :: entries[j].0 != entries[i].0)
        ensures DictDisplay(entries)[entries[i].0] == entries[i].1
      {
        if i < n {
          assert init[i] == entries[i];
          forall j | i < j < |init|
            ensures init[j].0 != init[i].0
          {
            assert init[j] == entries[j];
          }
        }
      }
    }
  }

  /** The entry at index i decides its key when no later entry repeats it. */
  lemma DictDisplayAt<K>(entries: seq<(K, Value)>, i: nat)
    requires i < |entries| && forall j | i < j < |entries| :: entries[j].0 != entries[i].0
    ensures entries[i].0 in DictDisplay(entries) && DictDisplay(entries)[entries[i].0] == entries[i].1
  {
    DictDisplayLastWins(entries);
  }

  /** The keys of a dict display are those its entries name. */
  lemma DictDisplayKeys<K>(entries: seq<(K, Value)>, k: K)
    ensures k in DictDisplay(entries) <==> exists i | 0 <= i < |entries| :: entries[i].0 == k
  {
    DictDisplayLastWins(entries);
  }

  /** A falsy optional text becomes None. */
  function TextOrNone(o: Option<string>): Value {
    if TruthyText(o) then Text(o.value) else Null
  }

  /** The entries of the profile dict, in source order; a UUID and a
      datetime are always truthy. */
  function ProfileEntries(user: Account): seq<(ProfileKey, Value)> {
    [(UuidKey, Uid(user.uuid)),
     (FirstnameKey, TextOrNone(user.firstName)),
     (LastnameKey, TextOrNone(user.lastName)),
     (EmailKey, Text(user.email)),
     (UsernameKey, Text(user.username)),
     (AddressKey, TextOrNone(user.address)),
     (CityKey, TextOrNone(user.city)),
     (PostalCodeKey, if TruthyInt(user.postalCode) then Int(user.postalCode.value) else Null),
     (PostalCodeKey, if user.dateJoined.Some? then Time(user.dateJoined.value) else Null)]
  }

  /** The profile of the requesting user, answered with 200. */
  function Profile(user: Account): ProfileResponse {
    ProfileResponse(HTTP_200_OK, DictDisplay(ProfileEntries(user)))
  }

  const ProfileKeys: set<ProfileKey> :=
    {UuidKey, FirstnameKey, LastnameKey, EmailKey, UsernameKey, AddressKey, CityKey, PostalCodeKey}

  /** The profile holds eight keys, none of them the password; falsy
      optional fields are None; and "postal_code" holds the join date,
      because the repeated key overrides the postal code. */
  lemma ProfileShape(user: Account)
    ensures Profile(user).status == HTTP_200_OK
    ensures var c := Profile(user).data;
      && c.Keys == ProfileKeys
      && (forall k | k in c :: KeyName(k) != "password")
      && c[UuidKey] == Uid(user.uuid)
      && c[EmailKey] == Text(user.email) && c[UsernameKey] == Text(user.username)
      && c[FirstnameKey] == TextOrNone(user.firstName) && c[LastnameKey] == TextOrNone(user.lastName)
      && c[AddressKey] == TextOrNone(user.address) && c[CityKey] == TextOrNone(user.city)
      && c[PostalCodeKey] == (if user.dateJoined.Some? then Time(user.dateJoined.value) else Null)
  {
    ProfileKeySet(user);
    ProfileRequiredValues(user);
    ProfileOptionalValues(user);
  }

  /** Every profile key is present, and none is named "password". */
  lemma ProfileKeySet(user: Account)
    ensures var c := Profile(user).data;
      c.Keys == ProfileKeys && forall k | k in c :: KeyName(k) != "password"
  {
    var e := ProfileEntries(user);
    var c := DictDisplay(e);
    forall k
      ensures k in c <==> k in ProfileKeys
    {
      DictDisplayKeys(e, k);
      if k in ProfileKeys {
        assert e[0].0 == UuidKey && e[1].0 == FirstnameKey && e[2].0 == LastnameKey;
        assert e[3].0 == EmailKey && e[4].0 == UsernameKey && e[5].0 == AddressKey;
        assert e[6].0 == CityKey && e[8].0 == PostalCodeKey;
      }
    }
  }

  /** The uuid, email and username are copied; "postal_code" holds the
      join date. */
  lemma ProfileRequiredValues(user: Account)
    ensures var c := Profile(user).data;
      && UuidKey in c && c[UuidKey] == Uid(user.uuid)
      && EmailKey in c && c[EmailKey] == Text(user.email)
      && UsernameKey in c && c[UsernameKey] == Text(user.username)
      && PostalCodeKey in c
      && c[PostalCodeKey] == (if user.dateJoined.Some? then Time(user.dateJoined.value) else Null)
  {
    var e := ProfileEntries(user);
    DictDisplayAt(e, 0);
    DictDisplayAt(e, 3);
    DictDisplayAt(e, 4);
    DictDisplayAt(e, 8);
  }

  /** Optional text fields are copied when truthy and None otherwise. */
  lemma ProfileOptionalValues(user: Account)
    ensures var c := Profile(user).data;
      && FirstnameKey in c && c[FirstnameKey] == TextOrNone(user.firstName)
      && LastnameKey in c && c[LastnameKey] == TextOrNone(user.lastName)
      && AddressKey in c && c[AddressKey] == TextOrNone(user.address)
      && CityKey in c && c[CityKey] == TextOrNone(user.city)
  {
    var e := ProfileEntries(user);
    DictDisplayAt(e, 1);
    DictDisplayAt(e, 2);
    DictDisplayAt(e, 5);
    DictDisplayAt(e, 6);
  }

  /** The postal code never reaches the profile: two users that differ
      only in it have the same profile. */
  lemma ProfileIgnoresPostalCode(user: Account, other: Account)
    requires other == user.(postalCode := other.postalCode)
    ensures Profile(user) == Profile(other)
  {
    ProfileShape(user);
    ProfileShape(other);
  }
}
