/** The user list of the untracked-read demo: a selected id, a list of user
    records, the selected user's name looked up by id, and the name edit that
    replaces the matching records. */
module Users {
  import opened Wrappers

  datatype User = User(id: int, name: string, age: int)

  /** The component's state: which id is selected and the current list. */
  datatype UserListState = UserListState(selectedUserId: int, users: seq<User>)

  const SeedUsers: seq<User> :=
    [User(1, "John", 20), User(2, "Jane", 21), User(3, "Doe", 22)]

  const InitialState: UserListState := UserListState(1, SeedUsers)

  predicate DistinctIds(users: seq<User>) {
    forall i, j :: 0 <= i < j < |users| ==> users[i].id != users[j].id
  }

  /** Two lists with the same ids at the same positions. */
  predicate SameIds(a: seq<User>, b: seq<User>) {
    |a| == |b| && forall i :: 0 <= i < |a| ==> a[i].id == b[i].id
  }

  /** The position of the first user with the given id, if any. */
  function FindIndex(users: seq<User>, id: int): (r: Option<nat>)
    ensures r.Some? ==> r.value < |users| && users[r.value].id == id
    ensures r.Some? ==> forall j :: 0 <= j < r.value ==> users[j].id != id
    ensures r.None? <==> forall j :: 0 <= j < |users| ==> users[j].id != id
    decreases |users|
  {
    if |users| == 0 then None
    else if users[0].id == id then Some(0)
    else
      match FindIndex(users[1..], id)
      case None => None
      case Some(k) => Some(k + 1)
  }

  /** `users.find(user => user.id === id)`. */
  function Find(users: seq<User>, id: int): (r: Option<User>)
    ensures r.Some? <==> exists i :: 0 <= i < |users| && users[i].id == id
    ensures r.Some? ==> exists i :: 0 <= i < |users| && users[i] == r.value && users[i].id == id
                                   && forall j :: 0 <= j < i ==> users[j].id != id
  {
    match FindIndex(users, id)
    case None => None
    case Some(i) => Some(users[i])
  }

  /** `selectedUserName`: the name of the first user with the selected id. */
  function SelectedUserName(s: UserListState): (r: Option<string>)
    ensures r.Some? <==> exists i :: 0 <= i < |s.users| && s.users[i].id == s.selectedUserId
    ensures r.Some? ==> exists i :: 0 <= i < |s.users| && s.users[i].id == s.selectedUserId
                                   && s.users[i].name == r.value
                                   && forall j :: 0 <= j < i ==> s.users[j].id != s.selectedUserId
  {
    match Find(s.users, s.selectedUserId)
    case None => None
    case Some(u) => Some(u.name)
  }

  /** The `map` of `updateUserName`: every record with the selected id gets the
      new name and keeps its id and age; every other record is kept as it is. */
  function RenameWhere(users: seq<User>, selectedId: int, value: string): (r: seq<User>)
    ensures SameIds(r, users)
    ensures forall i :: 0 <= i < |r| && users[i].id != selectedId ==> r[i] == users[i]
    ensures forall i :: 0 <= i < |r| && users[i].id == selectedId ==>
              r[i] == User(users[i].id, value, users[i].age)
  {
    seq(|users|, i requires 0 <= i < |users| =>
      if users[i].id == selectedId then users[i].(name := value) else users[i])
  }

  /** Clicking a user's button selects that user's id. */
  function SelectUser(s: UserListState, i: nat): (r: UserListState)
    requires i < |s.users|
    ensures r.users == s.users && r.selectedUserId == s.users[i].id
    ensures SelectedUserName(r).Some?
    ensures DistinctIds(s.users) ==> SelectedUserName(r) == Some(s.users[i].name)
  {
    var r := s.(selectedUserId := s.users[i].id);
    assert DistinctIds(s.users) ==> FindIndex(r.users, r.selectedUserId) == Some(i);
    r
  }

  /** `updateUserName`: the list is replaced by its renamed copy; the
      selection never changes. */
  function UpdateUserName(s: UserListState, value: string): (r: UserListState)
    ensures r.selectedUserId == s.selectedUserId
    ensures SameIds(r.users, s.users)
    ensures DistinctIds(s.users) ==> DistinctIds(r.users)
  {
    s.(users := RenameWhere(s.users, s.selectedUserId, value))
  }

  /** The first-match position depends only on the ids. */
  lemma {:induction false} FindIndexOnlyReadsIds(a: seq<User>, b: seq<User>, id: int)
    requires SameIds(a, b)
    ensures FindIndex(a, id) == FindIndex(b, id)
    decreases |a|
  {
    if |a| > 0 && a[0].id != id {
      FindIndexOnlyReadsIds(a[1..], b[1..], id);
    }
  }

  /** After an edit the selected name is the edited value when the selected id
      is present, and still absent when it is not. */
  lemma EditThenRead(s: UserListState, value: string)
    ensures var name := SelectedUserName(UpdateUserName(s, value));
      name == (if SelectedUserName(s).Some? then Some(value) else None)
  {
    var r := UpdateUserName(s, value);
    FindIndexOnlyReadsIds(r.users, s.users, s.selectedUserId);
  }

  /** An edit leaves the lookup of every other id as it was. */
  lemma EditKeepsOtherLookups(s: UserListState, value: string, id: int)
    requires id != s.selectedUserId
    ensures Find(UpdateUserName(s, value).users, id) == Find(s.users, id)
  {
    var r := UpdateUserName(s, value);
    FindIndexOnlyReadsIds(r.users, s.users, id);
  }

  /** Of two edits in a row only the later one is visible. */
  lemma LatestEditWins(s: UserListState, earlier: string, later: string)
    ensures UpdateUserName(UpdateUserName(s, earlier), later) == UpdateUserName(s, later)
  {
    var a := UpdateUserName(UpdateUserName(s, earlier), later).users;
    var b := UpdateUserName(s, later).users;
    assert |a| == |b|;
    forall i | 0 <= i < |a|
      ensures a[i] == b[i]
    {
    }
  }

  /** The seed list has distinct ids and the initial selection reads "John". */
  lemma InitialSelection()
    ensures DistinctIds(InitialState.users)
    ensures SelectedUserName(InitialState) == Some("John")
  {
    assert FindIndex(SeedUsers, 1) == Some(0);
  }
}
