/** The user table that the server keeps in `users.json`: an ordered list of
    records, appended to by registration and edited by profile updates. */
module Users {
  import opened Wrappers

  /** `{ id, username, password, bio }`; `password` holds the bcrypt hash and
      `bio` is `None` when the record has no `bio` field. */
  datatype User = User(id: int, username: string, password: string, bio: Option<string>)

  /** The invariant every sequence of registrations and updates keeps: the
      record at position i has id i + 1, and no two records share a username. */
  ghost predicate WellFormed(users: seq<User>) {
    && (forall i :: 0 <= i < |users| ==> users[i].id == i + 1)
    && (forall i, j :: 0 <= i < j < |users| ==> users[i].username != users[j].username)
  }

  /** `users.find(u => u.username === name)`, as the position of the first match. */
  function FindByUsername(users: seq<User>, name: string): (r: Option<nat>)
    ensures r.Some? ==> r.value < |users| && users[r.value].username == name
    ensures r.Some? ==> forall j :: 0 <= j < r.value ==> users[j].username != name
    ensures r.None? <==> forall j :: 0 <= j < |users| ==> users[j].username != name
    decreases |users|
  {
    if users == [] then None
    else if users[0].username == name then Some(0)
    else
      match FindByUsername(users[1..], name)
      case None => None
      case Some(k) => Some(k + 1)
  }

  /** `users.findIndex(u => u.id === id)`: the position of the first match, or -1. */
  function FindIndexById(users: seq<User>, id: int): (r: int)
    ensures -1 <= r < |users|
    ensures r >= 0 ==> users[r].id == id && forall j :: 0 <= j < r ==> users[j].id != id
    ensures r == -1 <==> forall j :: 0 <= j < |users| ==> users[j].id != id
    decreases |users|
  {
    if users == [] then -1
    else if users[0].id == id then 0
    else
      var k := FindIndexById(users[1..], id);
      if k == -1 then -1 else k + 1
  }

  /** In a well-formed table a username finds the one record that has it. */
  lemma FindByUsernameUnique(users: seq<User>, i: nat)
    requires WellFormed(users) && i < |users|
    ensures FindByUsername(users, users[i].username) == Some(i)
  {
  }

  /** In a well-formed table an id finds its record at position id - 1, and
      any id outside 1..|users| finds nothing. */
  lemma FindIndexByIdExact(users: seq<User>, id: int)
    requires WellFormed(users)
    ensures FindIndexById(users, id) == if 1 <= id <= |users| then id - 1 else -1
  {
    if 1 <= id <= |users| {
      assert users[id - 1].id == id;
    }
  }

  /** The record registration appends: the next id, the given username and
      hash, and `bio || ''`, so the record always has a bio, the one given
      when there is one and the empty string otherwise. */
  function NewUser(users: seq<User>, username: string, hashed: string, bio: Option<string>): (u: User)
    ensures u.id == |users| + 1 && u.username == username && u.password == hashed
    ensures u.bio.Some?
    ensures bio.Some? ==> u.bio == bio
    ensures bio.None? ==> u.bio == Some("")
  {
    User(|users| + 1, username, hashed, Some(bio.GetOr("")))
  }

  /** Registering a fresh username keeps the table well formed. */
  lemma AppendKeepsWellFormed(users: seq<User>, username: string, hashed: string, bio: Option<string>)
    requires WellFormed(users)
    requires FindByUsername(users, username).None?
    ensures WellFormed(users + [NewUser(users, username, hashed, bio)])
  {
  }

  /** Changing one record's bio keeps the table well formed. */
  lemma SetBioKeepsWellFormed(users: seq<User>, k: nat, bio: Option<string>)
    requires WellFormed(users) && k < |users|
    ensures WellFormed(users[k := users[k].(bio := bio)])
  {
  }

  /** Changing one record's bio changes no lookup by id. */
  lemma {:induction false} FindIndexByIdIgnoresBio(users: seq<User>, k: nat, bio: Option<string>, id: int)
    requires k < |users|
    ensures FindIndexById(users[k := users[k].(bio := bio)], id) == FindIndexById(users, id)
    decreases |users|
  {
    var updated := users[k := users[k].(bio := bio)];
    if k > 0 {
      assert updated[1..] == users[1..][k - 1 := users[k].(bio := bio)];
      FindIndexByIdIgnoresBio(users[1..], k - 1, bio, id);
    }
    else if |users| > 1 {
      assert updated[1..] == users[1..];
    }
  }
}
