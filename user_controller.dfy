/** UserController: the patient list with its optional name search, and
    creating, updating and deleting users. */
module UserApi {
  import opened Wrappers
  import opened ActionResults
  import opened Models
  import opened Dtos
  import Seqs
  import Tables
  import Text
  import Data

  function ToUserDto(u: User): UserDto {
    UserDto(u.userId, u.username, u.email, u.role)
  }

  /** `u.Role.ToLower() == "patient"`. */
  predicate HasPatientRole(role: string) {
    Text.ToLower(role) == "patient"
  }

  /** The filter `u => u.Role.ToLower() == "patient"`. */
  function IsPatient(): User -> bool {
    (u: User) => HasPatientRole(u.role)
  }

  /** The filter `u => u.Username.ToLower().Contains(search.ToLower())`. */
  function NameContains(search: string): User -> bool {
    (u: User) => Text.ContainsIgnoreCase(u.username, search)
  }

  /** The query of GET patients, before its projection. */
  function PatientsMatching(users: seq<User>, search: Option<string>): seq<User> {
    var patients := Seqs.Filter(users, IsPatient());
    if Text.IsNullOrEmpty(search) then patients else Seqs.Filter(patients, NameContains(search.value))
  }

  /** Whether a stored user belongs in the answer of GET patients?search=... */
  predicate Listed(u: User, search: Option<string>) {
    HasPatientRole(u.role) && (Text.IsNullOrEmpty(search) || Text.ContainsIgnoreCase(u.username, search.value))
  }

  /** GET patients?search=...: every listed user is a patient whose username
      contains a non-empty search, ignoring case; every such user is listed. */
  function GetPatients(users: seq<User>, search: Option<string>): (r: seq<UserDto>)
    ensures forall d :: d in r ==> HasPatientRole(d.role)
    ensures !Text.IsNullOrEmpty(search) ==> forall d :: d in r ==> Text.ContainsIgnoreCase(d.username, search.value)
    ensures forall d :: d in r ==> exists u :: u in users && Listed(u, search) && d == ToUserDto(u)
    ensures forall u :: u in users && Listed(u, search) ==> ToUserDto(u) in r
  {
    var matching := PatientsMatching(users, search);
    forall u | u in matching ensures u in users && Listed(u, search) {
      var patients := Seqs.Filter(users, IsPatient());
      if !Text.IsNullOrEmpty(search) {
        assert u in patients && NameContains(search.value)(u);
      }
      assert u in patients;
      assert IsPatient()(u);
    }
    forall u | u in users && Listed(u, search) ensures u in matching {
      assert IsPatient()(u);
      if !Text.IsNullOrEmpty(search) {
        assert NameContains(search.value)(u);
      }
    }
    Seqs.Map(matching, ToUserDto)
  }

  /** POST: the new user; the password hash is an input standing for the hash of
      the default password. */
  function NewUser(id: int, dto: UserDto, passwordHash: string, now: int): (r: User)
    ensures r.userId == id && r.username == dto.username && r.email == dto.email && r.role == dto.role
    ensures r.passwordHash == passwordHash && r.createdAt == now
  {
    User(id, dto.username, dto.email, passwordHash, dto.role, now)
  }

  /** PUT {id}: username, email and role change; the password hash and the
      creation time do not. */
  function WithUserUpdate(u: User, dto: UserDto): (r: User)
    ensures r.username == dto.username && r.email == dto.email && r.role == dto.role
    ensures r.userId == u.userId && r.passwordHash == u.passwordHash && r.createdAt == u.createdAt
  {
    u.(username := dto.username, email := dto.email, role := dto.role)
  }

  class UserController {
    const context: Data.AppDbContext

    constructor (context: Data.AppDbContext)
      ensures this.context == context
    {
      this.context := context;
    }

    /** POST: adds one user numbered by the identity counter. */
    method CreateUser(dto: UserDto, passwordHash: string, now: int) returns (r: ActionResult<int>)
      requires context.Valid()
      modifies context`users, context`nextUserId
      ensures context.Valid()
      ensures r == Created(old(context.nextUserId))
      ensures context.users == old(context.users) + [NewUser(old(context.nextUserId), dto, passwordHash, now)]
      ensures context.nextUserId == old(context.nextUserId) + 1
    {
      var id := context.nextUserId;
      var u := NewUser(id, dto, passwordHash, now);
      Tables.AppendKeepsKeys(context.users, UserKey, u, id);
      context.users := context.users + [u];
      context.nextUserId := id + 1;
      r := Created(id);
    }

    /** PUT {id}: the id in the path must equal the id in the body. */
    method UpdateUser(id: int, dto: UserDto) returns (r: ActionResult<()>)
      requires context.Valid()
      modifies context`users
      ensures context.Valid()
      ensures id != dto.userId ==> r == BadRequest && context.users == old(context.users)
      ensures id == dto.userId ==>
        var found := Tables.Find(old(context.users), UserKey, id);
        if found.None? then
          r == NotFound && context.users == old(context.users)
        else
          r == NoContent &&
          context.users == Tables.Replace(old(context.users), UserKey, id, WithUserUpdate(found.value, dto))
    {
      if id != dto.userId {
        return BadRequest;
      }
      var found := Tables.Find(context.users, UserKey, id);
      if found.None? {
        return NotFound;
      }
      var u := WithUserUpdate(found.value, dto);
      Tables.ReplaceKeepsKeys(context.users, UserKey, id, u, context.nextUserId);
      context.users := Tables.Replace(context.users, UserKey, id, u);
      r := NoContent;
    }

    /** DELETE {id}. */
    method DeleteUser(id: int) returns (r: ActionResult<()>)
      requires context.Valid()
      modifies context`users
      ensures context.Valid()
      ensures !Tables.HasKey(old(context.users), UserKey, id) ==>
        r == NotFound && context.users == old(context.users)
      ensures Tables.HasKey(old(context.users), UserKey, id) ==>
        r == NoContent && context.users == Tables.Remove(old(context.users), UserKey, id)
    {
      var found := Tables.Find(context.users, UserKey, id);
      if found.None? {
        return NotFound;
      }
      Tables.RemoveKeepsKeys(context.users, UserKey, id, context.nextUserId);
      context.users := Tables.Remove(context.users, UserKey, id);
      r := NoContent;
    }
  }
}
