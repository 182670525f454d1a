/** The user shapes: the create body with its password rule, the profile update body,
    and the public profile, which never carries the password. */
module UserSchema {
  import opened Common
  import opened Models

  const MinUserCreatePassword := 6

  /** The create body. It is not the registration body, and its password rule is
      different. */
  datatype UserCreate = UserCreate(
    email: string,
    firstName: Option<string>,
    lastName: Option<string>,
    phone: Option<string>,
    telegramUsername: Option<string>,
    avatarUrl: Option<string>,
    bio: Option<string>,
    password: string)

  /** `min_length=6` on the password, with no upper bound. */
  function UserCreateViolations(c: UserCreate): (r: seq<Violation>)
    ensures r == [] <==> |c.password| >= MinUserCreatePassword
  {
    if |c.password| < MinUserCreatePassword then [Violation("password", "string_too_short")] else []
  }

  /** The profile update body: the six profile fields, each optional. Email and password
      are not among them. */
  datatype UserUpdate = UserUpdate(
    firstName: Field<Option<string>>,
    lastName: Field<Option<string>>,
    phone: Field<Option<string>>,
    telegramUsername: Field<Option<string>>,
    avatarUrl: Field<Option<string>>,
    bio: Field<Option<string>>)

  const EmptyProfileUpdate := UserUpdate(Unset, Unset, Unset, Unset, Unset, Unset)

  /** The six profile columns an update may write. */
  datatype ProfileField = FirstName | LastName | Phone | TelegramUsername | AvatarUrl | Bio

  /** One `(field, value)` pair of the dump of a profile update. */
  datatype ProfileAssignment = ProfileAssignment(field: ProfileField, value: Option<string>)

  /** `model_dump(exclude_unset=True)` of a profile update, as a table of the six fields in
      declaration order: slot `k` holds the value of field `k` when the client sent it,
      nulls included, and is empty when the field was left out. */
  function DumpProfileSlots(u: UserUpdate): (r: seq<Option<ProfileAssignment>>)
    ensures |r| == 6
    ensures u == EmptyProfileUpdate ==> forall k :: 0 <= k < 6 ==> r[k].None?
  {
    [ if u.firstName.Set? then Some(ProfileAssignment(FirstName, u.firstName.value)) else None,
      if u.lastName.Set? then Some(ProfileAssignment(LastName, u.lastName.value)) else None,
      if u.phone.Set? then Some(ProfileAssignment(Phone, u.phone.value)) else None,
      if u.telegramUsername.Set? then Some(ProfileAssignment(TelegramUsername, u.telegramUsername.value)) else None,
      if u.avatarUrl.Set? then Some(ProfileAssignment(AvatarUrl, u.avatarUrl.value)) else None,
      if u.bio.Set? then Some(ProfileAssignment(Bio, u.bio.value)) else None ]
  }

  /** The public view of a user: id, creation time and the base fields, no password.
      The response after registration and the profile view have this shape. */
  datatype UserProfile = UserProfile(
    id: int,
    email: string,
    firstName: Option<string>,
    lastName: Option<string>,
    phone: Option<string>,
    telegramUsername: Option<string>,
    avatarUrl: Option<string>,
    bio: Option<string>,
    createdAt: nat)

  /** What a user row serialises to. */
  function ProfileOf(u: User): (p: UserProfile)
    ensures p.id == u.id && p.email == u.email && p.createdAt == u.createdAt
    ensures p.firstName == u.firstName && p.lastName == u.lastName && p.phone == u.phone
    ensures p.telegramUsername == u.telegramUsername && p.avatarUrl == u.avatarUrl && p.bio == u.bio
  {
    UserProfile(u.id, u.email, u.firstName, u.lastName, u.phone, u.telegramUsername,
                u.avatarUrl, u.bio, u.createdAt)
  }

  /** The profile hides only the password: two rows with the same profile differ at most
      in their password hash. */
  lemma ProfileHidesOnlyPassword(a: User, b: User)
    requires ProfileOf(a) == ProfileOf(b)
    ensures a == b.(password := a.password)
  {
  }

  /** The profile does not depend on the password at all. */
  lemma ProfileIndependentOfPassword(u: User, h: string)
    ensures ProfileOf(u.(password := h)) == ProfileOf(u)
  {
  }
}
