/** User accounts and the user mapper: the public view, a new user from a
    registration request, and the in-place profile, password-change and
    password-reset updates, each given here as the record before and after.
    Password hashes and salts are opaque byte strings computed elsewhere. */
module UserMapper {
  import opened Common

  type Bytes = seq<bv8>

  const AdminRole := "Admin"
  const UserRole := "User"

  datatype User = User(
    id: int,
    firstName: string,
    lastName: string,
    email: string,
    passwordHash: Bytes,
    passwordSalt: Bytes,
    role: string,
    phoneNumber: Option<string>,
    address: Option<string>,
    passwordResetToken: Option<string>,
    tokenExpiry: Option<Time>,
    isDeleted: bool)

  /** `GetUserDto`: no password, salt, role or token fields. */
  datatype UserView = UserView(
    firstName: string,
    lastName: string,
    email: string,
    phoneNumber: Option<string>,
    address: Option<string>)

  datatype CreateUserDto = CreateUserDto(firstName: string, lastName: string, email: string, password: Option<string>)

  /** `UpdateUserDto`: every field optional. */
  datatype UpdateUserDto = UpdateUserDto(
    firstName: Option<string>,
    lastName: Option<string>,
    phoneNumber: Option<string>,
    address: Option<string>)

  function ToUserDto(u: User): (r: UserView)
    ensures r.firstName == u.firstName && r.lastName == u.lastName && r.email == u.email
    ensures r.phoneNumber == u.phoneNumber && r.address == u.address
  {
    UserView(u.firstName, u.lastName, u.email, u.phoneNumber, u.address)
  }

  /** Users that differ only in their credentials, role and reset token
      have the same public view: the view exposes none of these. */
  lemma ViewHidesSecrets(u: User, hash: Bytes, salt: Bytes, token: Option<string>, expiry: Option<Time>, role: string)
    ensures ToUserDto(u) == ToUserDto(u.(passwordHash := hash, passwordSalt := salt, passwordResetToken := token,
                                         tokenExpiry := expiry, role := role))
  {
  }

  /** `ToUser`: the email lowercased, the credentials given, and the role
      "User" when the flag is set and "Admin" otherwise. */
  function ToUser(dto: CreateUserDto, hash: Bytes, salt: Bytes, isAdmin: bool): (r: User)
    ensures r.email == ToLower(dto.email) && r.firstName == dto.firstName && r.lastName == dto.lastName
    ensures r.passwordHash == hash && r.passwordSalt == salt
    ensures r.role == (if isAdmin then UserRole else AdminRole)
    ensures r.passwordResetToken.None? && r.tokenExpiry.None? && !r.isDeleted
  {
    User(0, dto.firstName, dto.lastName, ToLower(dto.email), hash, salt,
         if isAdmin then UserRole else AdminRole, None, None, None, None, false)
  }

  /** The flag behaves as "an admin already exists": passing it makes the
      role an ordinary user, and only its absence makes an admin. */
  lemma ToUserRoleIsInverted(dto: CreateUserDto, hash: Bytes, salt: Bytes)
    ensures ToUser(dto, hash, salt, true).role == UserRole
    ensures ToUser(dto, hash, salt, false).role == AdminRole
    ensures ToUser(dto, hash, salt, true).role != ToUser(dto, hash, salt, false).role
  {
  }

  /** A field of a patch: an absent or empty value keeps the old one. */
  function Patch(current: string, requested: Option<string>): (r: string)
    ensures IsNullOrEmpty(requested) ==> r == current
    ensures !IsNullOrEmpty(requested) ==> r == requested.value
  {
    if IsNullOrEmpty(requested) then current else requested.value
  }

  function PatchOptional(current: Option<string>, requested: Option<string>): (r: Option<string>)
    ensures IsNullOrEmpty(requested) ==> r == current
    ensures !IsNullOrEmpty(requested) ==> r == requested
  {
    if IsNullOrEmpty(requested) then current else requested
  }

  /** `UpdateUserFromDto`: names, phone and address patched; nothing else
      changes. */
  function UpdateUserFromDto(u: User, dto: UpdateUserDto): (r: User)
    ensures r.(firstName := u.firstName, lastName := u.lastName, phoneNumber := u.phoneNumber, address := u.address) == u
  {
    u.(firstName := Patch(u.firstName, dto.firstName), lastName := Patch(u.lastName, dto.lastName),
       phoneNumber := PatchOptional(u.phoneNumber, dto.phoneNumber), address := PatchOptional(u.address, dto.address))
  }

  /** Every profile field follows the patch rule, and a patch applied twice
      is the patch applied once. */
  lemma UpdateUserPatchRule(u: User, dto: UpdateUserDto)
    ensures var r := UpdateUserFromDto(u, dto);
      && (IsNullOrEmpty(dto.firstName) ==> r.firstName == u.firstName)
      && (!IsNullOrEmpty(dto.firstName) ==> r.firstName == dto.firstName.value)
      && (IsNullOrEmpty(dto.lastName) ==> r.lastName == u.lastName)
      && (!IsNullOrEmpty(dto.lastName) ==> r.lastName == dto.lastName.value)
      && (IsNullOrEmpty(dto.phoneNumber) ==> r.phoneNumber == u.phoneNumber)
      && (!IsNullOrEmpty(dto.phoneNumber) ==> r.phoneNumber == dto.phoneNumber)
      && (IsNullOrEmpty(dto.address) ==> r.address == u.address)
      && (!IsNullOrEmpty(dto.address) ==> r.address == dto.address)
      && UpdateUserFromDto(r, dto) == r
  {
  }

  /** `ChangePasswordFromDto`: only the hash and the salt change. */
  function ChangePasswordFromDto(u: User, hash: Bytes, salt: Bytes): (r: User)
    ensures r.passwordHash == hash && r.passwordSalt == salt
    ensures r.(passwordHash := u.passwordHash, passwordSalt := u.passwordSalt) == u
  {
    u.(passwordHash := hash, passwordSalt := salt)
  }

  /** `ResetPasswordFromDto`: the new credentials, and the reset token and
      its expiry cleared. */
  function ResetPasswordFromDto(u: User, hash: Bytes, salt: Bytes): (r: User)
    ensures r.passwordHash == hash && r.passwordSalt == salt
    ensures r.passwordResetToken.None? && r.tokenExpiry.None?
    ensures r.(passwordHash := u.passwordHash, passwordSalt := u.passwordSalt,
               passwordResetToken := u.passwordResetToken, tokenExpiry := u.tokenExpiry) == u
  {
    u.(passwordHash := hash, passwordSalt := salt, passwordResetToken := None, tokenExpiry := None)
  }

  /** A reset is a password change that also clears the token. */
  lemma ResetIsChangeAndClear(u: User, hash: Bytes, salt: Bytes)
    ensures ResetPasswordFromDto(u, hash, salt)
         == ChangePasswordFromDto(u, hash, salt).(passwordResetToken := None, tokenExpiry := None)
    ensures ResetPasswordFromDto(ResetPasswordFromDto(u, hash, salt), hash, salt) == ResetPasswordFromDto(u, hash, salt)
  {
  }
}
