/** The user list store of src/store/slices/userSlice.ts: the current user, the
    list of users and a loading flag, changed in place by six reducers. */
module UserSlice {
  import opened Wrappers

  datatype User = User(id: int, name: string, email: string)

  /** A snapshot of the store's three fields. */
  datatype UserState = UserState(currentUser: Option<User>, users: seq<User>, loading: bool)

  /** `users.filter(user => user.id !== id)`. */
  function WithoutId(users: seq<User>, id: int): (r: seq<User>)
    ensures |r| <= |users|
    ensures forall k | 0 <= k < |r| :: r[k].id != id
  {
    if users == [] then []
    else (if users[0].id == id then [] else [users[0]]) + WithoutId(users[1..], id)
  }

  /** Filtering works piece by piece, so the kept users stay in their order. */
  lemma {:induction false} WithoutIdAppend(a: seq<User>, b: seq<User>, id: int)
    ensures WithoutId(a + b, id) == WithoutId(a, id) + WithoutId(b, id)
    decreases |a|
  {
    if a == [] {
      assert a + b == b;
    } else {
      assert (a + b)[1..] == a[1..] + b;
      WithoutIdAppend(a[1..], b, id);
    }
  }

  /** Every user with another id is kept, as many times as it occurs. */
  lemma {:induction false} WithoutIdKeepsOthers(users: seq<User>, id: int, u: User)
    requires u.id != id
    ensures multiset(WithoutId(users, id))[u] == multiset(users)[u]
    decreases |users|
  {
    if users != [] {
      WithoutIdKeepsOthers(users[1..], id, u);
      assert users == [users[0]] + users[1..];
    }
  }

  /** The users left are exactly those of the list whose id differs. */
  lemma WithoutIdMembers(users: seq<User>, id: int, u: User)
    ensures u in WithoutId(users, id) <==> u in users && u.id != id
  {
    if u.id != id {
      WithoutIdKeepsOthers(users, id, u);
      assert u in WithoutId(users, id) <==> multiset(WithoutId(users, id))[u] > 0;
    }
  }

  /** Removing an id that no user has leaves the list as it is. */
  lemma {:induction false} WithoutIdAbsent(users: seq<User>, id: int)
    requires forall k | 0 <= k < |users| :: users[k].id != id
    ensures WithoutId(users, id) == users
    decreases |users|
  {
    if users != [] {
      WithoutIdAbsent(users[1..], id);
      assert users == [users[0]] + users[1..];
    }
  }

  /** Removing the same id twice removes nothing more. */
  lemma WithoutIdIdempotent(users: seq<User>, id: int)
    ensures WithoutId(WithoutId(users, id), id) == WithoutId(users, id)
  {
    WithoutIdAbsent(WithoutId(users, id), id);
  }

  class UserStore {
    var currentUser: Option<User>
    var users: seq<User>
    var loading: bool

    ghost function State(): UserState
      reads this
    {
      UserState(currentUser, users, loading)
    }

    /** The initial state: no current user, no users, not loading. */
    constructor ()
      ensures State() == UserState(None, [], false)
    {
      currentUser := None;
      users := [];
      loading := false;
    }

    method SetCurrentUser(user: User)
      modifies this
      ensures State() == old(State()).(currentUser := Some(user))
    {
      currentUser := Some(user);
    }

    /** Replaces the whole list. */
    method SetUsers(list: seq<User>)
      modifies this
      ensures State() == old(State()).(users := list)
    {
      users := list;
    }

    /** Appends at the end: the old list is an unchanged prefix of the new one. */
    method AddUser(user: User)
      modifies this
      ensures State() == old(State()).(users := old(users) + [user])
      ensures |users| == |old(users)| + 1 && users[..|old(users)|] == old(users)
    {
      users := users + [user];
    }

    method RemoveUser(id: int)
      modifies this
      ensures State() == old(State()).(users := WithoutId(old(users), id))
      ensures forall u :: u in users <==> u in old(users) && u.id != id
    {
      ghost var before := users;
      users := WithoutId(users, id);
      forall u
        ensures u in users <==> u in before && u.id != id
      {
        WithoutIdMembers(before, id, u);
      }
    }

    method SetLoading(value: bool)
      modifies this
      ensures State() == old(State()).(loading := value)
    {
      loading := value;
    }

    method ClearCurrentUser()
      modifies this
      ensures State() == old(State()).(currentUser := None)
    {
      currentUser := None;
    }
  }
}
