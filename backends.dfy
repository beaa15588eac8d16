/** `RollNumberBackend.authenticate`: log in with a roll number or an e-mail address. */
module Backends {
  import opened Wrappers
  import opened Text
  import opened Models

  /** `User.USERNAME_FIELD`. */
  const UsernameField: string := "roll_number"

  /** `field__iexact=value`, for ASCII letters. */
  predicate IExact(field: string, value: string) {
    Lower(field) == Lower(value)
  }

  /** `Q(roll_number__iexact=username) | Q(email__iexact=username)`. */
  predicate MatchesLogin(u: User, username: string) {
    IExact(u.rollNumber, username) || IExact(u.email, username)
  }

  /** The users the query selects, in table order. */
  function Matching(users: seq<User>, username: string): (r: seq<User>)
    ensures forall u :: u in r <==> u in users && MatchesLogin(u, username)
  {
    if users == [] then []
    else (if MatchesLogin(users[0], username) then [users[0]] else []) + Matching(users[1..], username)
  }

  /** `.order_by('id').first()` on a non-empty selection. */
  function LowestId(users: seq<User>): (u: User)
    requires users != []
    ensures u in users
    ensures forall v :: v in users ==> u.id <= v.id
  {
    if |users| == 1 then users[0]
    else
      var rest := LowestId(users[1..]);
      if users[0].id <= rest.id then users[0] else rest
  }

  /** The username the backend looks up: the argument, or else the keyword argument named
      by `USERNAME_FIELD`. */
  function ResolveUsername(username: Option<string>, kwargs: map<string, string>): Option<string> {
    if username.Some? then username
    else if UsernameField in kwargs then Some(kwargs[UsernameField])
    else None
  }

  /** `authenticate(request, username, password, **kwargs)`. `checkPassword` and
      `canAuthenticate` stand for `user.check_password` and `user_can_authenticate`. */
  function Authenticate(users: seq<User>, username: Option<string>, password: Option<string>,
                        kwargs: map<string, string>,
                        checkPassword: (User, string) -> bool, canAuthenticate: User -> bool): (r: Option<User>)
    ensures ResolveUsername(username, kwargs).None? || password.None? ==> r.None?
    ensures ResolveUsername(username, kwargs).Some? && (forall u :: u in users ==> !MatchesLogin(u, ResolveUsername(username, kwargs).value)) ==> r.None?
    ensures r.Some? ==>
      && r.value in users
      && MatchesLogin(r.value, ResolveUsername(username, kwargs).value)
      && (forall v :: v in users && MatchesLogin(v, ResolveUsername(username, kwargs).value) ==> r.value.id <= v.id)
      && checkPassword(r.value, password.value)
      && canAuthenticate(r.value)
  {
    var name := ResolveUsername(username, kwargs);
    if name.None? || password.None? then None
    else
      var found := Matching(users, name.value);
      if found == [] then None
      else
        // `get` when exactly one row matches, otherwise the lowest id among them
        var user := if |found| == 1 then found[0] else LowestId(found);
        assert user in found;
        if checkPassword(user, password.value) && canAuthenticate(user) then Some(user) else None
  }

  /** With ids unique, the user tried is the matching one with the lowest id, and the
      outcome is decided by the two checks on that user alone. */
  lemma PasswordDecides(users: seq<User>, username: Option<string>, password: Option<string>,
                        kwargs: map<string, string>, checkPassword: (User, string) -> bool,
                        canAuthenticate: User -> bool, u: User)
    requires UsersUnique(users)
    requires ResolveUsername(username, kwargs).Some? && password.Some?
    requires u in users && MatchesLogin(u, ResolveUsername(username, kwargs).value)
    requires forall v :: v in users && MatchesLogin(v, ResolveUsername(username, kwargs).value) ==> u.id <= v.id
    ensures Authenticate(users, username, password, kwargs, checkPassword, canAuthenticate) ==
      if checkPassword(u, password.value) && canAuthenticate(u) then Some(u) else None
  {
    var name := ResolveUsername(username, kwargs).value;
    var found := Matching(users, name);
    assert u in found;
    var chosen := if |found| == 1 then found[0] else LowestId(found);
    assert chosen in found;
    SameIdSameUser(users, chosen, u);
  }

  lemma SameIdSameUser(users: seq<User>, a: User, b: User)
    requires UsersUnique(users) && a in users && b in users && a.id == b.id
    ensures a == b
  {
    var i :| 0 <= i < |users| && users[i] == a;
    var j :| 0 <= j < |users| && users[j] == b;
    assert i == j;
  }

  /** Without a `username` argument, the `roll_number` keyword is used in its place. */
  lemma KeywordUsername(users: seq<User>, name: string, password: Option<string>,
                        kwargs: map<string, string>, checkPassword: (User, string) -> bool,
                        canAuthenticate: User -> bool)
    requires kwargs == map["roll_number" := name]
    ensures Authenticate(users, None, password, kwargs, checkPassword, canAuthenticate) ==
      Authenticate(users, Some(name), password, map[], checkPassword, canAuthenticate)
  {
  }

  /** A roll number typed in another case still finds its user. */
  lemma CaseIgnored(u: User, typed: string)
    requires |typed| == |u.rollNumber|
    requires forall i :: 0 <= i < |typed| ==> LowerChar(typed[i]) == LowerChar(u.rollNumber[i])
    ensures MatchesLogin(u, typed)
  {
    assert Lower(u.rollNumber) == Lower(typed);
  }
}
