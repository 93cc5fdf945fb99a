# User accounts of the authentication service, in Dafny

This project models the user-account lifecycle of the authentication
service: the `User` model and its `UserManager`, the `UserSerializer`, and
the account endpoints (registration, activation, forgot-password,
reset-password, profile). It proves properties of that model.

The modules follow the three source files:

- `EmailRegex` (email_regex.dfy) covers the manager's `email_regex` pattern. The pattern is written literally, one construct at a time. An independent character-level description of the same language comes with it, and the two are proved equal. Both quirks of the pattern are kept:
  - `[.-_]` is the whole range '.'..'_', so it includes '@', the digits and the capitals;
  - `[A-Z|a-z]` admits '|'.
- `Models` (models.py) holds:
  - `Account`, the row stored for a user;
  - `Construct`, the model's keyword constructor with its declared defaults;
  - the `slug_generator` pre-save hook, as `PreSave`;
  - the class `User`, whose fields the code assigns in place (`set_password`, the flag assignments, `__str__`, `has_perm`, `has_module_perms`);
  - the class `UserManager`, which owns the table (`rows`) and implements `save`, the two `objects.get` lookups, `create_user` and `create_superuser`.
- `Serializers` (serializers.py) models the self-registration path `UserSerializer.create` and the serialized form of an account, where the password is write-only.
- `Api` (api.py) models each endpoint. An endpoint that writes the table is a method of the module that takes the `UserManager` and is proved equal to a pure step function, and the endpoint's lemmas are stated on that step function. Outgoing mail is returned as a value.
- `Values` holds the shared value types: a dynamically typed field value, `Option`, and `Result` with the Python exceptions it can carry.

The code calls out to things it does not show. These are parameters of the model, bundled in `Models.Services`, and nothing is assumed about them:

- the token maker and checker;
- the password encoder and checker;
- `normalize_email`;
- the unique-slug generator.

The uuid that the field's `uuid.uuid4` default draws in Python when an instance is built is a parameter of each operation that creates an account. Those operations require it not to be a key of the table yet, which is what a fresh uuid4 draw gives.

## Model

| member | source | states |
|---|---|---|
| EmailRegex.FullMatch | python/src/authentication/users/models.py:13-16 | `re.fullmatch(email_regex, email)`, built literally from the pattern's constructs: a star of groups, a plus, the '@', a character class and a plus of dot segments. |
| EmailRegex.FullMatchIffShape | python/src/authentication/users/models.py:13 | A string fully matches the pattern exactly when it has the shape described character by character. The local part splits at the LAST '@'. It is made of alphanumerics and characters of '.'..'_', does not start with a non-alphanumeric separator, has every such separator right after an alphanumeric, and ends alphanumeric. Then comes one label of alphanumerics and '-', then dot segments, each of two or more characters from A-Z, '|', a-z. |
| EmailRegex.GroupsSound | python/src/authentication/users/models.py:13 | Text matched by `([A-Za-z0-9]+[.-_])*` is empty or well separated and ends in a separator. |
| EmailRegex.GroupsComplete | python/src/authentication/users/models.py:13 | Every well-separated text that is empty or ends in a non-alphanumeric separator is matched by `([A-Za-z0-9]+[.-_])*`. |
| EmailRegex.LocalPartSound | python/src/authentication/users/models.py:13 | Text matched by the local-part pattern has the local-part shape. |
| EmailRegex.LocalPartComplete | python/src/authentication/users/models.py:13 | Text with the local-part shape is matched by the local-part pattern. |
| EmailRegex.SegmentsSound | python/src/authentication/users/models.py:13 | Text matched by `(\.[A-Z\|a-z]{2,})+` starts with '.', and every dot has two segment characters after it before the next dot or the end. |
| EmailRegex.SegmentsComplete | python/src/authentication/users/models.py:13 | Every text of that shape is matched by `(\.[A-Z\|a-z]{2,})+`. |
| EmailRegex.MatchedAtIsLast | python/src/authentication/users/models.py:13 | In a match, the '@' before the domain is the last '@' of the address. |
| EmailRegex.NoAtRejected | python/src/authentication/users/models.py:13 | A string without '@' never matches. |
| EmailRegex.NoDotAfterAtRejected | python/src/authentication/users/models.py:13 | A string with no '.' after its last '@' never matches ("a@b"). |
| EmailRegex.MatchEndsInTwoSegmentChars | python/src/authentication/users/models.py:13 | A match ends in two segment characters, so a final segment of one character ("a@b.c") is refused. |
| EmailRegex.DigitInSegmentRejected | python/src/authentication/users/models.py:13 | A digit after the first dot that follows the last '@' is refused ("a@b.c0m"). |
| EmailRegex.HyphenBeforeAtRejected | python/src/authentication/users/models.py:13 | A '-' anywhere before an '@' is refused, because the local part has no '-'. |
| EmailRegex.AcceptsSampleAddress | python/src/authentication/users/models.py:13 | "laurent.gina@oasis.com" matches. |
| EmailRegex.RejectsSampleAddresses | python/src/authentication/users/models.py:13 | "labodruche du 78", "a@b", "a@b.c", "a@b.c0m" and "first-last@example.com" do not match. |
| EmailRegex.AcceptsDoubleAt | python/src/authentication/users/models.py:13 | "a@b@c.com" matches, because '@' lies in the separator range '.'..'_'. |
| EmailRegex.AcceptsBarInSegment | python/src/authentication/users/models.py:13 | "a@b.c\|" matches, because '\|' is in `[A-Z\|a-z]`. |
| EmailRegex.LastIndexOf | python/src/authentication/users/models.py:13 | The result is -1 or an index holding the character, and no later index holds it. |
| Models.Construct | python/src/authentication/users/models.py:42-57 | `User(**kwargs)`: every field takes the keyword argument of its name when one of the column's type is given, and its declared default otherwise. The uuid default is the drawn uuid. |
| Models.ConstructGivenOrDefault | python/src/authentication/users/models.py:43-57 | The uuid, email, username and password given to the constructor are taken as given; a password given this way is stored raw. Each flag is true exactly when given as true. Not given, the uuid is the drawn one, email and username are empty and the password column is blank. |
| Models.ConstructNullableGivenOrNull | python/src/authentication/users/models.py:43-56 | Each nullable field (first and last name, address, city, postal code, slug, both timestamps) takes the value given, and is null when not given. |
| Models.PasswordFor | python/src/authentication/users/models.py:23 | The credential `set_password` stores: the encoding of the raw password, or an unusable password when there is none. |
| Models.FreshUserDefaults | python/src/authentication/users/models.py:52-57 | A user built without arguments is unverified, inactive, not staff and not superuser, and every optional field is empty. |
| Models.PreSave | python/src/authentication/users/models.py:79-83 | The hook changes only the slug. It keeps a non-empty slug and stores the generated one when the slug is null or empty. |
| Models.SlugSetOnce | python/src/authentication/users/models.py:79-83 | Once the slug is non-empty, no series of later saves changes it, whatever else changes between them. |
| Models.SlugFixedByFirstSave | python/src/authentication/users/models.py:79-83 | The first save of an account without a slug stores the generated slug, and when that slug is non-empty it stays through every later save. |
| Models.User.FromRow | python/src/authentication/users/models.py:42-57 | The instance holds exactly the given row. |
| Models.User.SetPassword | python/src/authentication/users/models.py:23 | Only the credential changes. It becomes the encoding of the raw password, or unusable when there is none. |
| Models.User.Promote | python/src/authentication/users/models.py:35-37 | Only the three flags change, and all three become true. |
| Models.PermissionQueries | python/src/authentication/users/models.py:68-75 | `has_perm` equals `is_staff` whatever it is asked, `has_module_perms` is always true, and the string form is the email. |
| Models.NewUserRow | python/src/authentication/users/models.py:19-25 | The instance create_user builds is active and verified, neither staff nor superuser, and has the normalised email, the username, the fresh uuid, the encoded or unusable password and no slug. |
| Models.CreatedUserFlags | python/src/authentication/users/models.py:15-27 | The row create_user stores is active and verified, neither staff nor superuser, and has the normalised email, the uuid and the encoded password. |
| Models.SuperuserRow | python/src/authentication/users/models.py:29-39 | The row create_superuser stores is active, staff, superuser and verified, and holds the email normalised twice. |
| Models.UserManager.Save | python/src/authentication/users/models.py:79-83 | The instance goes through the pre-save hook, its row is written under its uuid, and every other row is unchanged. |
| Models.UserManager.Get | python/src/authentication/users/api.py:103 | `objects.get(uuid=…)` returns an instance holding the row, or DoesNotExist. |
| Models.UserManager.GetByEmail | python/src/authentication/users/api.py:119 | `objects.get(email=…)` fails with DoesNotExist when no row holds the email and with MultipleObjectsReturned when several do. Otherwise it returns the one row holding it. |
| Models.UserManager.CreateUser | python/src/authentication/users/models.py:15-27 | A non-matching email raises ValueError with the source's message and leaves the table unchanged. Otherwise one new row is stored under the drawn uuid, which was not yet a key: the table gains exactly that key, and the row is the created-user row. |
| Models.UserManager.CreateSuperuser | python/src/authentication/users/models.py:29-39 | It fails as create_user does on the normalised email. Otherwise the table gains exactly the drawn uuid as a new key, and its row is the superuser row. |
| Serializers.RegistrationInstance | python/src/authentication/users/serializers.py:14-18 | The instance `create` builds: the password popped from the data, `User(**validated_data)` on the rest, and `set_password` when a password was popped. |
| Serializers.RegistrationRow | python/src/authentication/users/serializers.py:19 | The row `create` stores: that instance after the pre-save slug hook. |
| Serializers.Create | python/src/authentication/users/serializers.py:14-20 | The new instance is the registration row. It is stored under the drawn uuid, which was not yet a key, so the table gains exactly one row and no other row is written. |
| Serializers.RegistrationInstanceIdentity | python/src/authentication/users/serializers.py:14-16 | The instance has the fresh uuid and no timestamps, and the email and username as supplied. |
| Serializers.RegistrationInstanceOptional | python/src/authentication/users/serializers.py:16 | Each optional field is the value supplied, or None. |
| Serializers.RegistrationInstancePassword | python/src/authentication/users/serializers.py:15-18 | The password is the encoding of the supplied one, and blank when none was supplied. It is never the raw text. |
| Serializers.RegistrationInstanceFlags | python/src/authentication/users/serializers.py:16 | Each flag is true exactly when it was supplied as true. |
| Serializers.RegistrationRowIsInstance | python/src/authentication/users/serializers.py:19 | The one save changes nothing but the slug. |
| Serializers.RegistrationIsInactive | python/src/authentication/users/serializers.py:16 | A registration that names no flag stores an inactive, unverified, unprivileged account. |
| Serializers.PopKeepsRawPasswordOut | python/src/authentication/users/serializers.py:15-18 | Built with the password still in the data, the instance would hold the raw text. Popped, it holds the blank default until `set_password` stores the encoding. |
| Serializers.RegistrationSlug | python/src/authentication/users/serializers.py:19 | A supplied non-empty slug is kept. Otherwise the generated slug is stored. |
| Serializers.RegistrationRowIdentity | python/src/authentication/users/serializers.py:14-20 | The stored row has the fresh uuid and the email supplied. |
| Serializers.RegistrationBypassesEmailPattern | python/src/authentication/users/serializers.py:14-20 | For all valid registration data whose email the manager's pattern refuses, the stored row holds that email. |
| Serializers.RegistrationBypassWitness | python/src/authentication/users/serializers.py:14-20 | Such data exists: "a-b@c.de" is valid registration input, the manager's pattern refuses it, and it is stored. |
| Serializers.Representation | python/src/authentication/users/serializers.py:8-12 | The output has an entry for every field except the write-only password. |
| Serializers.RepresentationIsValidInput | python/src/authentication/users/serializers.py:8-12 | The writable part of the output is acceptable input. |
| Serializers.RepresentationRoundTrip | python/src/authentication/users/serializers.py:8-16 | Constructing from the writable part of the output gives back the account, apart from the password, the timestamps and the uuid. |
| Api.RegisterStep | python/src/authentication/users/api.py:48-68 | Registration as a step: 500 without validated data; otherwise the registration row is stored under the drawn uuid, the answer is 201 and an activation mail is produced. |
| Api.RegisterCreatedIffValid | python/src/authentication/users/api.py:48-68 | The answer is 201 exactly when validation passed. Then, for a drawn uuid not yet in the table, the table gains exactly that key, whose row holds the registration, and every other row is unchanged. One activation mail goes to its email with the row's uuid. Otherwise the answer is 500, nothing is saved and nothing is sent. |
| Api.Register | python/src/authentication/users/api.py:48-68 | The endpoint's outcome, table and mail are the registration step's. |
| Api.ActivateStep | python/src/authentication/users/api.py:102-108 | Activation as a step: DoesNotExist for an unknown uuid; when the token checks, `is_active` is set, the row saved and the answer 202; otherwise no response. |
| Api.ActivateAcceptedIffToken | python/src/authentication/users/api.py:102-108 | The answer is 202 exactly when the account exists and the token checks. Then the account is active, `email_verified` is as before, and nothing else changes except a missing slug. |
| Api.ActivationLeavesUnverified | python/src/authentication/users/api.py:106 | An unverified account that is activated stays unverified, because the assignment goes to the misspelled `email_veridfied`. |
| Api.ActivateFailureChangesNothing | python/src/authentication/users/api.py:103-108 | Without a passing token check the table is unchanged. An unknown uuid raises DoesNotExist, and a known one gets no response. |
| Api.Activate | python/src/authentication/users/api.py:102-108 | The endpoint's outcome and table are the activation step's. |
| Api.ForgotPassword | python/src/authentication/users/api.py:118-133 | A missing "email" raises KeyError, and a lookup that finds zero or several rows raises the lookup error. The answer is 200 with the success body exactly when one row holds the email; then that account is mailed a reset link. The table is never written. |
| Api.ResetStep | python/src/authentication/users/api.py:143-149 | Reset as a step, in Python's evaluation order: DoesNotExist for an unknown uuid, KeyError for a missing "password1", 403 when password1 checks against the current password, KeyError for a missing "password2", then 200 with the encoded password1 saved when the two match and the token checks, and 403 otherwise. |
| Api.ResetOkIffGuard | python/src/authentication/users/api.py:143-149 | The answer is 200 exactly when the account exists, both fields are present, password1 is not the current password, password1 equals password2 and the token checks. Then only that account's password changes (and a missing slug), to the encoding of password1. |
| Api.ResetRefusalChangesNothing | python/src/authentication/users/api.py:143-149 | Any other outcome leaves the table unchanged. With the account found and both fields present, it is 403. |
| Api.ResetMismatchForbidden | python/src/authentication/users/api.py:145-149 | Mismatched confirmation values answer 403 and change nothing, whatever the token. |
| Api.ResetToCurrentForbidden | python/src/authentication/users/api.py:145-149 | A reset to the current password answers 403 before password2 is read. |
| Api.ResetPassword | python/src/authentication/users/api.py:143-149 | The endpoint's outcome and table are the reset step's. The checks run in Python's evaluation order, and each missing key raises KeyError. |
| Api.DictDisplayLastWins | python/src/authentication/users/api.py:80-90 | The keys of a dict display are those its entries name, and a repeated key holds the value of its last entry. |
| Api.Profile | python/src/authentication/users/api.py:78-92 | The profile answer: 200 with the dict display of the account's fields, written entry by entry as in the source, the repeated "postal_code" key included. |
| Api.ProfileShape | python/src/authentication/users/api.py:78-92 | The profile answers 200 with exactly eight keys, none named "password". Falsy optional fields become None, the uuid, email and username are copied, and "postal_code" holds the join date. |
| Api.ProfileKeySet | python/src/authentication/users/api.py:80-90 | The profile's keys are the eight keys of the display, and none is named "password". |
| Api.ProfileRequiredValues | python/src/authentication/users/api.py:81-89 | The uuid, email and username are copied, and "postal_code" holds the join date. |
| Api.ProfileOptionalValues | python/src/authentication/users/api.py:82-87 | First name, last name, address and city are copied when truthy and None otherwise. |
| Api.ProfileIgnoresPostalCode | python/src/authentication/users/api.py:88-89 | Two accounts that differ only in postal code have the same profile. |

## Left out

- JWT login, refresh and logout blacklisting (python/src/authentication/users/api.py:152-164) are thin wrappers over the JWT library and Django's logout. They are not modelled.
- Email delivery and the current site lookup (python/src/authentication/users/api.py:53-65, 120-132) are I/O. The endpoints return the mail they would send (recipient, uid, token) instead.
- Token making and checking, password hashing and checking, `normalize_email` and the unique-slug generator live outside these files or in the framework. They are uninterpreted functions in `Models.Services`. No token round trip and no property of the hash is claimed.
- The `auto_now`/`auto_now_add` timestamps read the clock. Saving does not stamp them, and the registration path constructs no timestamp.
- Database uniqueness of email, username and slug is not enforced. The table is a map keyed by uuid, so two rows never share a uuid. Lookups by uuid therefore never raise MultipleObjectsReturned, which the database could do, since the uuid column is not declared unique.
- The framework's serializer validation (required fields, `max_length`, the `EmailField` check) is not modelled. Registration receives its outcome as a parameter: no data when validation failed, otherwise writable fields whose values fit their columns.
- The `uidb64` path argument of the activation and reset endpoints is taken as the uuid itself. Its string parsing is not modelled.
- When the activation view falls through it returns None, which the framework then rejects. The model stops at `NoResponse`, the None itself.
- The generic list, retrieve, update and delete views and the permission classes are framework plumbing. They are not modelled.
- Routing and admin configuration (urls.py, admin.py) and python/src/service/core/models.py are not part of this model. The last holds the same set-once slug hook over a generator that is not shown.
- The database alias passed to `save(using=self._db)` is not modelled: there is one table.
