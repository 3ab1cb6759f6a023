/** The manager's user screen (src/pages/UsersPage.tsx): the list of staff
    accounts with create, in-place edit and delete. */
module Users {
  import opened Types
  import Lists

  /** The create form: the text fields, the two flags and the role. */
  datatype UserForm = UserForm(
    username: string,
    password: string,
    first_name: string,
    last_name: string,
    email: string,
    is_staff: bool,
    is_active: bool,
    role: Role)

  /** The defaults the form starts from and is reset to after a create:
      empty text, not staff, active, role `employee`. */
  const InitialUserForm: UserForm := UserForm("", "", "", "", "", false, true, Employee)

  /** With ids unique, a successful delete of the user at position `k` drops
      that user and keeps every other one in its place in the order. */
  lemma DeleteKeepsOrder(users: seq<User>, k: nat)
    requires k < |users|
    requires forall i, j :: 0 <= i < j < |users| ==> users[i].id != users[j].id
    ensures Lists.RemoveKey(users, users[k].id, UserId) == users[..k] + users[k + 1..]
  {
    forall i | 0 <= i < |users| && i != k ensures UserId(users[i]) != UserId(users[k]) {
      if i < k {
        assert users[i].id != users[k].id;
      } else {
        assert users[k].id != users[i].id;
      }
    }
    Lists.RemoveKeyAt(users, k, UserId);
  }

  /** Deleting a user just created under a fresh id gives back the list as
      it was before the create. */
  lemma DeleteUndoesCreate(users: seq<User>, created: User)
    requires forall u :: u in users ==> u.id != created.id
    ensures Lists.RemoveKey(users + [created], created.id, UserId) == users
  {
    Lists.AppendThenRemove(users, created, UserId);
  }

  /** After a successful save the user with that id is the server's copy,
      and a list without that id is left as it was. */
  lemma SaveThenLookup(users: seq<User>, id: int, saved: User)
    requires saved.id == id
    ensures Lists.Find(Lists.ReplaceKey(users, id, saved, UserId), (u: User) => UserId(u) == id)
            == if Lists.HasKey(users, id, UserId) then Some(saved) else None
  {
    Lists.ReplaceThenFind(users, id, saved, UserId);
  }

  class UsersPage {
    var users: seq<User>
    var loading: bool
    var newUser: UserForm
    var editingId: Option<int>
    /** `Partial<User>`: a copy of the user being edited, or `{}` (None). */
    var editValues: Option<User>

    /** Nothing loaded yet, the default form, not editing. */
    constructor ()
      ensures users == [] && loading && newUser == InitialUserForm
      ensures editingId == None && editValues == None
    {
      users := [];
      loading := true;
      newUser := InitialUserForm;
      editingId := None;
      editValues := None;
    }

    /** `fetchUsers()`: a success replaces the list, a failure keeps it, and
        `loading` ends either way. */
    method FetchUsers(response: Response<seq<User>>)
      modifies this
      ensures users == if response.Ok? then response.data else old(users)
      ensures !loading
      ensures newUser == old(newUser) && editingId == old(editingId) && editValues == old(editValues)
    {
      if response.Ok? {
        users := response.data;
      }
      loading := false;
    }

    /** The page mounts two identical effects, each fetching the list; the
        later answer to succeed wins, and two failures leave the list as it
        was. The responses are given in the order they complete. */
    method Mount(first: Response<seq<User>>, second: Response<seq<User>>)
      modifies this
      ensures users == if second.Ok? then second.data else if first.Ok? then first.data else old(users)
      ensures !loading
      ensures newUser == old(newUser) && editingId == old(editingId) && editValues == old(editValues)
    {
      FetchUsers(first);
      FetchUsers(second);
    }

    /** `handleCreate()`: post the form; a success appends the response and
        resets the form to its defaults, a failure changes nothing. */
    method Create(response: Response<User>) returns (sent: UserForm)
      modifies this
      ensures sent == old(newUser)
      ensures response.Ok? ==> users == old(users) + [response.data] && newUser == InitialUserForm
      ensures response.Failed? ==> users == old(users) && newUser == old(newUser)
      ensures loading == old(loading) && editingId == old(editingId) && editValues == old(editValues)
    {
      sent := newUser;
      if response.Ok? {
        users := users + [response.data];
        newUser := InitialUserForm;
      }
    }

    /** `handleEdit(user)`: edit that user, starting from a copy of it. */
    method Edit(user: User)
      modifies this
      ensures editingId == Some(user.id) && editValues == Some(user)
      ensures users == old(users) && loading == old(loading) && newUser == old(newUser)
    {
      editingId := Some(user.id);
      editValues := Some(user);
    }

    /** `handleSave(id)`: put the edit values; a success replaces the users
        with that id by the response and leaves edit mode, a failure changes
        nothing and stays in edit mode. */
    method Save(id: int, response: Response<User>) returns (sent: Option<User>)
      modifies this
      ensures sent == old(editValues)
      ensures response.Ok? ==> users == Lists.ReplaceKey(old(users), id, response.data, UserId)
      ensures response.Ok? ==> editingId == None && editValues == None
      ensures response.Failed? ==> users == old(users) && editingId == old(editingId) && editValues == old(editValues)
      ensures loading == old(loading) && newUser == old(newUser)
    {
      sent := editValues;
      if response.Ok? {
        users := Lists.ReplaceKey(users, id, response.data, UserId);
        editingId := None;
        editValues := None;
      }
    }

    /** `handleDelete(id)`: a declined confirmation sends nothing; a confirmed,
        successful delete removes the users with that id. */
    method Delete(id: int, confirmed: bool, succeeded: bool) returns (requested: bool)
      modifies this
      ensures requested == confirmed
      ensures users == if confirmed && succeeded then Lists.RemoveKey(old(users), id, UserId) else old(users)
      ensures loading == old(loading) && newUser == old(newUser)
      ensures editingId == old(editingId) && editValues == old(editValues)
    {
      if !confirmed {
        requested := false;
        return;
      }
      requested := true;
      if succeeded {
        users := Lists.RemoveKey(users, id, UserId);
      }
    }
  }
}
