/** The two forms with logic of their own: the location constraint form's radius check and
    the user creation form's `save`. */
module Forms {
  import opened Wrappers
  import opened Models

  const RadiusMessage: string := "Radius must be greater than 0."

  /** `LocationConstraintForm.clean_radius`: a radius of zero or less is refused, any other
      is kept as it was entered. */
  function CleanRadius(radius: real): (r: Result<real, string>)
    ensures r.Ok? <==> radius > 0.0
    ensures r.Ok? ==> r.value == radius
    ensures r.Err? ==> r.error == RadiusMessage
  {
    if radius <= 0.0 then Err(RadiusMessage) else Ok(radius)
  }

  /** The validated fields of `CustomUserCreationForm`. */
  datatype CleanedUser = CleanedUser(rollNumber: string, email: string, firstName: string, lastName: string, role: Role)

  /** A user object in memory, saved or not (`id` is `None` until it is saved). */
  class UserObject {
    var id: Option<UserId>
    var rollNumber: string
    var email: string
    var firstName: string
    var lastName: string
    var role: Option<Role>

    constructor (rollNumber: string)
      ensures id.None? && this.rollNumber == rollNumber
      ensures email == "" && firstName == "" && lastName == "" && role.None?
    {
      id := None;
      this.rollNumber := rollNumber;
      email := "";
      firstName := "";
      lastName := "";
      role := None;
    }

    /** The row this object becomes when saved under `id`; the other columns take their
        defaults. */
    function AsRow(id: UserId): (u: User)
      reads this
      ensures u.id == id && u.rollNumber == rollNumber && u.email == email
      ensures u.firstName == firstName && u.lastName == lastName && u.role == role
      ensures u.isActive && u.faceEncoding.None? && u.faceImage.None?
    {
      User(id, rollNumber, email, firstName, lastName, role, None, None, true, None, None, None)
    }
  }

  /** The user table; ids are handed out in increasing order. */
  class UserStore {
    var rows: seq<User>
    var nextId: UserId

    constructor ()
      ensures rows == [] && nextId == 1
    {
      rows := [];
      nextId := 1;
    }

    /** `user.save()` for an object not saved before: a new row with the next id. */
    method Insert(u: UserObject)
      requires u.id.None?
      modifies this, u`id
      ensures u.id == Some(old(nextId))
      ensures rows == old(rows) + [u.AsRow(old(nextId))]
      ensures nextId == old(nextId) + 1
    {
      u.id := Some(nextId);
      rows := rows + [u.AsRow(nextId)];
      nextId := nextId + 1;
    }
  }

  /** `CustomUserCreationForm.save(commit)`. `instance` is what the parent form's
      `save(commit=False)` built; the four fields are copied onto it, and it is stored only
      when `commit` holds. */
  method Save(instance: UserObject, cleaned: CleanedUser, store: UserStore, commit: bool) returns (user: UserObject)
    requires instance.id.None?
    modifies instance, store
    ensures user == instance
    ensures user.email == cleaned.email && user.firstName == cleaned.firstName
    ensures user.lastName == cleaned.lastName && user.role == Some(cleaned.role)
    ensures user.rollNumber == old(instance.rollNumber)
    ensures commit ==> user.id == Some(old(store.nextId)) && store.rows == old(store.rows) + [user.AsRow(old(store.nextId))]
    ensures !commit ==> user.id.None? && store.rows == old(store.rows) && store.nextId == old(store.nextId)
  {
    user := instance;
    user.email := cleaned.email;
    user.firstName := cleaned.firstName;
    user.lastName := cleaned.lastName;
    user.role := Some(cleaned.role);
    if commit {
      store.Insert(user);
    }
  }
}
