/** The list logic of the user management page, src/pages/UserManagement.tsx:
    seeding an empty list, the add/edit dialog and delete. The page's own hook
    state (`isModalOpen`, `editingUser`) is a class beside the store it
    dispatches to. */
module UserManagement {
  import opened Wrappers
  import opened UserSlice

  /** The three sample users the page puts into an empty list. */
  function SeedUsers(): (r: seq<User>)
    ensures |r| == 3
    ensures forall k | 0 <= k < |r| :: r[k].id == k + 1
  {
    [ User(1, "张三", "zhangsan@example.com"),
      User(2, "李四", "lisi@example.com"),
      User(3, "王五", "wangwu@example.com") ]
  }

  /** What the dialog form yields once validated: it has a name and an e-mail
      field and no id field. */
  datatype FormValues = FormValues(name: string, email: string)

  /** `{ ...user, ...values }`: the form's fields over the user's. */
  function Edited(user: User, values: FormValues): User
  {
    user.(name := values.name, email := values.email)
  }

  /** `users.map(user => user.id === id ? { ...user, ...values } : user)`. */
  function ApplyEdit(users: seq<User>, id: int, values: FormValues): (r: seq<User>)
    ensures |r| == |users|
    ensures forall k | 0 <= k < |r| :: r[k].id == users[k].id
    ensures forall k | 0 <= k < |r| :: users[k].id != id ==> r[k] == users[k]
    ensures forall k | 0 <= k < |r| :: users[k].id == id ==> r[k].name == values.name && r[k].email == values.email
  {
    if users == [] then []
    else [if users[0].id == id then Edited(users[0], values) else users[0]] + ApplyEdit(users[1..], id, values)
  }

  /** Saving the same values again changes nothing more. */
  lemma ApplyEditIdempotent(users: seq<User>, id: int, values: FormValues)
    ensures ApplyEdit(ApplyEdit(users, id, values), id, values) == ApplyEdit(users, id, values)
  {
    var once := ApplyEdit(users, id, values);
    var twice := ApplyEdit(once, id, values);
    forall k | 0 <= k < |twice|
      ensures twice[k] == once[k]
    {
      if once[k].id == id {
        assert twice[k] == Edited(once[k], values);
      }
    }
  }

  /** Deleting a user after editing it leaves the same list as deleting it
      straight away: an edit touches only the entries with the edited id. */
  lemma {:induction false} EditThenDelete(users: seq<User>, id: int, values: FormValues)
    ensures WithoutId(ApplyEdit(users, id, values), id) == WithoutId(users, id)
    decreases |users|
  {
    if users != [] {
      var r := ApplyEdit(users, id, values);
      assert r[1..] == ApplyEdit(users[1..], id, values);
      EditThenDelete(users[1..], id, values);
    }
  }

  /** The user a confirmed "add" dialog appends: its id is the clock value
      `Date.now()` passed in by the caller, which need not be unused. */
  function NewUser(now: int, values: FormValues): (u: User)
    ensures u.id == now && u.name == values.name && u.email == values.email
  {
    User(now, values.name, values.email)
  }

  class UserPage {
    const store: UserStore
    var isModalOpen: bool
    var editingUser: Option<User>

    constructor (store: UserStore)
      ensures this.store == store && !isModalOpen && editingUser == None
    {
      this.store := store;
      isModalOpen := false;
      editingUser := None;
    }

    /** The effect run whenever the list's length changes: an empty list gets
        the three sample users, any other list is left alone. */
    method SeedIfEmpty()
      modifies store
      ensures store.State() == if old(store.users) == [] then old(store.State()).(users := SeedUsers()) else old(store.State())
    {
      if |store.users| == 0 {
        store.SetUsers(SeedUsers());
      }
    }

    /** Opens the dialog in add mode. */
    method HandleAddUser()
      modifies this
      ensures isModalOpen && editingUser == None
    {
      editingUser := None;
      isModalOpen := true;
    }

    /** Opens the dialog in edit mode for `user`. */
    method HandleEditUser(user: User)
      modifies this
      ensures isModalOpen && editingUser == Some(user)
    {
      editingUser := Some(user);
      isModalOpen := true;
    }

    /** Delete is the store's `removeUser` and nothing else. */
    method HandleDeleteUser(id: int)
      modifies store
      ensures store.State() == old(store.State()).(users := WithoutId(old(store.users), id))
    {
      store.RemoveUser(id);
    }

    /** The dialog's OK button. `values` is `None` when validation fails: then
        nothing changes and the dialog stays open. Otherwise an edit rewrites
        the entries with the edited user's id and an add appends a new user;
        either way the dialog closes and `editingUser` is left as it was. */
    method HandleModalOk(values: Option<FormValues>, now: int)
      modifies this, store
      ensures values.None? ==> store.State() == old(store.State()) && isModalOpen == old(isModalOpen)
      ensures values.Some? && old(editingUser).Some? ==>
                store.State() == old(store.State()).(users := ApplyEdit(old(store.users), old(editingUser).value.id, values.value))
      ensures values.Some? && old(editingUser).None? ==>
                store.State() == old(store.State()).(users := old(store.users) + [NewUser(now, values.value)])
      ensures values.Some? ==> !isModalOpen
      ensures editingUser == old(editingUser)
    {
      if values.Some? {
        match editingUser {
          case Some(user) =>
            store.SetUsers(ApplyEdit(store.users, user.id, values.value));
          case None =>
            store.AddUser(NewUser(now, values.value));
        }
        isModalOpen := false;
      }
    }

    /** The dialog's Cancel button closes it and changes nothing else. */
    method HandleModalCancel()
      modifies this
      ensures !isModalOpen && editingUser == old(editingUser)
    {
      isModalOpen := false;
    }
  }
}
