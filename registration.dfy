/** The duplicate-check and append step of `newUser`, shared by the three variants:
    the list of registered users kept under the `registeredUsers` key, checked for an
    email by exact string equality and extended at its end. */
module Registration {

  datatype Option<T> = None | Some(value: T)

  datatype User = User(email: string, password: string)

  /** What a submission ends in. */
  datatype SubmitOutcome = InvalidForm | DuplicateEmail | Registered

  /** `users.some(user => user.email === email)`. */
  predicate EmailTaken(users: seq<User>, email: string) {
    exists i :: 0 <= i < |users| && users[i].email == email
  }

  /** No email occurs twice. */
  predicate UniqueEmails(users: seq<User>) {
    forall i, j :: 0 <= i < j < |users| ==> users[i].email != users[j].email
  }

  /** The list after registering `u`: `None` for a duplicate email, otherwise the old
      list with `u` as its new last element. */
  function Register(users: seq<User>, u: User): (r: Option<seq<User>>)
    ensures r.None? <==> EmailTaken(users, u.email)
    ensures r.Some? ==> |r.value| == |users| + 1 && r.value[..|users|] == users && r.value[|users|] == u
  {
    if EmailTaken(users, u.email) then None else Some(users + [u])
  }

  /** Registering keeps emails unique and makes the new email taken. */
  lemma RegisterKeepsEmailsUnique(users: seq<User>, u: User)
    requires UniqueEmails(users)
    requires Register(users, u).Some?
    ensures UniqueEmails(Register(users, u).value)
    ensures EmailTaken(Register(users, u).value, u.email)
  {
    var r := Register(users, u).value;
    forall i, j | 0 <= i < j < |r| ensures r[i].email != r[j].email {
      if j == |users| {
        assert r[i] == users[i];
      } else {
        assert r[i] == users[i] && r[j] == users[j];
      }
    }
    assert r[|users|] == u;
  }

  /** A second submission of the same email is rejected. */
  lemma RegisterTwiceRejected(users: seq<User>, u: User, v: User)
    requires Register(users, u).Some? && v.email == u.email
    ensures Register(Register(users, u).value, v).None?
  {
    var r := Register(users, u).value;
    assert r[|users|].email == v.email;
  }

  /** Every email taken before stays taken. */
  lemma RegisterKeepsEarlierEmails(users: seq<User>, u: User, email: string)
    requires Register(users, u).Some? && EmailTaken(users, email)
    ensures EmailTaken(Register(users, u).value, email)
  {
    var r := Register(users, u).value;
    var i :| 0 <= i < |users| && users[i].email == email;
    assert r[i] == users[i];
  }

  /** The browser's key-value store, reduced to the one key the widget uses. */
  class UserStore {
    /** The list stored under `registeredUsers`; `None` when the key is absent. */
    var registeredUsers: Option<seq<User>>

    constructor (stored: Option<seq<User>>)
      ensures registeredUsers == stored
    {
      registeredUsers := stored;
    }

    /** The list `newUser` starts from: the stored one, or `[]` when there is none. */
    function Users(): seq<User>
      reads this
    {
      if registeredUsers.Some? then registeredUsers.value else []
    }

    /** Reject a duplicate email and leave the store alone; otherwise append `u` and
        write the whole list back. */
    method AddUser(u: User) returns (outcome: SubmitOutcome)
      modifies this
      ensures outcome != InvalidForm
      ensures outcome == DuplicateEmail <==> EmailTaken(old(Users()), u.email)
      ensures outcome == DuplicateEmail ==> registeredUsers == old(registeredUsers)
      ensures outcome == Registered ==> registeredUsers == Register(old(Users()), u)
    {
      var users := Users();
      if EmailTaken(users, u.email) {
        return DuplicateEmail;
      }
      users := users + [u];
      registeredUsers := Some(users);
      outcome := Registered;
    }
  }

  /** Two registrations against a one-user list: `a@x.com` again is rejected, a new
      `b@x.com` makes the list two long. */
  lemma RegistrationScenario(pa: string, pb: string)
    ensures Register([User("a@x.com", pa)], User("a@x.com", pb)).None?
    ensures Register([User("a@x.com", pa)], User("b@x.com", pb)) == Some([User("a@x.com", pa), User("b@x.com", pb)])
  {
    assert [User("a@x.com", pa)][0].email == "a@x.com";
    assert "a@x.com"[0] != "b@x.com"[0];
    assert !EmailTaken([User("a@x.com", pa)], "b@x.com");
    assert [User("a@x.com", pa)] + [User("b@x.com", pb)] == [User("a@x.com", pa), User("b@x.com", pb)];
  }
}
