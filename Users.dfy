/** The users page (src/pages/Users.tsx): the user list with its search, and the
    create/edit dialog whose update leaves the password out when none is typed. */
module Users {
  import opened Types
  import opened Api
  import opened Text
  import opened Lists

  /** `userForm`. */
  datatype UserForm = UserForm(name: string, email: string, password: string, role: Role)

  /** The form `resetForm` restores. */
  const EmptyForm := UserForm("", "", "", UserRole)

  /** The form `openEditDialog` fills from a user: its name, email and role, no password. */
  function EditForm(u: User): (f: UserForm)
    ensures f.name == u.name && f.email == u.email && f.role == u.role && f.password == ""
  {
    UserForm(u.name, u.email, "", u.role)
  }

  /** What a save sends; `password` is absent from an update when none was typed. */
  datatype UserPayload = UserPayload(name: string, email: string, role: Role, password: Option<string>)

  /** The update payload: the form, with the password spread in only when it is truthy. */
  function UpdatePayload(f: UserForm): (p: UserPayload)
    ensures p.name == f.name && p.email == f.email && p.role == f.role
    ensures p.password.Some? <==> f.password != ""
    ensures p.password.Some? ==> p.password.value == f.password
  {
    UserPayload(f.name, f.email, f.role, if f.password != "" then Some(f.password) else None)
  }

  /** The create payload: the whole form, password included even when empty. */
  function CreatePayload(f: UserForm): (p: UserPayload)
    ensures p.name == f.name && p.email == f.email && p.role == f.role && p.password == Some(f.password)
  {
    UserPayload(f.name, f.email, f.role, Some(f.password))
  }

  /** Editing a user and saving without typing a password sends the user's own
      name, email and role and no password, so the stored password is kept. */
  lemma UntouchedEditKeepsPassword(u: User)
    ensures UpdatePayload(EditForm(u)) == UserPayload(u.name, u.email, u.role, None)
  {
  }

  /** The two payloads differ only in the password, and only when none was typed. */
  lemma PayloadsAgreeWhenPasswordTyped(f: UserForm)
    ensures UpdatePayload(f) == CreatePayload(f) <==> f.password != ""
  {
  }

  /** `users.filter(user => user.id !== id)`. */
  function WithoutId(users: seq<User>, id: int): (r: seq<User>)
    ensures |r| <= |users|
    ensures forall i :: 0 <= i < |r| ==> r[i].id != id && r[i] in users
    ensures forall i :: 0 <= i < |users| && users[i].id != id ==> users[i] in r
  {
    Filter(users, (u: User) => u.id != id)
  }

  /** Removing an id nobody has changes nothing, and removal works part by part,
      so the remaining users keep their order. */
  lemma WithoutIdKeepsOrder(a: seq<User>, b: seq<User>, id: int)
    ensures (forall i :: 0 <= i < |a| ==> a[i].id != id) ==> WithoutId(a, id) == a
    ensures WithoutId(a + b, id) == WithoutId(a, id) + WithoutId(b, id)
  {
    if forall i :: 0 <= i < |a| ==> a[i].id != id {
      FilterKeepsAll(a, (u: User) => u.id != id);
    }
    FilterAppend(a, b, (u: User) => u.id != id);
  }

  /** A user matches when the lower-cased query occurs in its lower-cased name or email. */
  predicate UserMatches(u: User, query: string) {
    MatchesAny([u.name, u.email], query)
  }

  /** `filteredUsers`. */
  function FilteredUsers(users: seq<User>, query: string): (r: seq<User>)
    ensures |r| <= |users|
    ensures forall i :: 0 <= i < |r| ==> r[i] in users && UserMatches(r[i], query)
    ensures forall i :: 0 <= i < |users| && UserMatches(users[i], query) ==> users[i] in r
  {
    Filter(users, (u: User) => UserMatches(u, query))
  }

  /** An empty search keeps every user, in order. */
  lemma EmptySearchKeepsAll(users: seq<User>)
    ensures FilteredUsers(users, "") == users
  {
    forall i | 0 <= i < |users|
      ensures UserMatches(users[i], "")
    {
      EmptyQueryMatches([users[i].name, users[i].email]);
    }
    FilterKeepsAll(users, (u: User) => UserMatches(u, ""));
  }

  class Page {
    var users: seq<User>
    var loading: bool
    var isDialogOpen: bool
    var isEditMode: bool
    var searchQuery: string
    var selectedUser: Option<User>
    var form: UserForm

    constructor ()
      ensures users == [] && loading && !isDialogOpen && !isEditMode && searchQuery == ""
      ensures selectedUser.None? && form == EmptyForm
    {
      users := [];
      loading := true;
      isDialogOpen := false;
      isEditMode := false;
      searchQuery := "";
      selectedUser := None;
      form := EmptyForm;
    }

    /** The users the table shows. */
    function Shown(): seq<User>
      reads this
    {
      FilteredUsers(users, searchQuery)
    }

    /** The fetch effect: a successful reply replaces the list; loading is over afterwards. */
    method Fetch(reply: ListReply<User>)
      modifies this
      ensures reply.ListAnswered? && reply.success ==> users == reply.data
      ensures !(reply.ListAnswered? && reply.success) ==> users == old(users)
      ensures !loading
      ensures isDialogOpen == old(isDialogOpen) && isEditMode == old(isEditMode)
      ensures searchQuery == old(searchQuery) && selectedUser == old(selectedUser) && form == old(form)
    {
      loading := true;
      if reply.ListAnswered? && reply.success {
        users := reply.data;
      }
      loading := false;
    }

    /** `resetForm`. */
    method ResetForm()
      modifies this
      ensures form == EmptyForm && !isEditMode && selectedUser.None?
      ensures users == old(users) && loading == old(loading) && isDialogOpen == old(isDialogOpen)
      ensures searchQuery == old(searchQuery)
    {
      form := EmptyForm;
      isEditMode := false;
      selectedUser := None;
    }

    /** `openEditDialog`. */
    method OpenEditDialog(u: User)
      modifies this
      ensures isEditMode && selectedUser == Some(u) && form == EditForm(u) && isDialogOpen
      ensures users == old(users) && loading == old(loading) && searchQuery == old(searchQuery)
    {
      isEditMode := true;
      selectedUser := Some(u);
      form := UserForm(u.name, u.email, "", u.role);
      isDialogOpen := true;
    }

    /** `handleSubmit`: an update of the selected user in edit mode, a create
      otherwise. After an accepted save the list is fetched again (and taken
      if that reply is a success); then the dialog closes and the form is
      reset. A throwing refetch leaves the dialog and the form as they were. */
    method HandleSubmit(reply: Reply, refresh: ListReply<User>)
      returns (target: Option<int>, payload: UserPayload)
      modifies this
      ensures old(isEditMode) && old(selectedUser).Some? ==>
                target == Some(old(selectedUser).value.id) && payload == UpdatePayload(old(form))
      ensures !(old(isEditMode) && old(selectedUser).Some?) ==>
                target.None? && payload == CreatePayload(old(form))
      ensures reply == Answered(true) && refresh.ListAnswered? && refresh.success ==> users == refresh.data
      ensures !(reply == Answered(true) && refresh.ListAnswered? && refresh.success) ==> users == old(users)
      ensures reply == Answered(true) && refresh.ListAnswered? ==>
                !isDialogOpen && form == EmptyForm && !isEditMode && selectedUser.None?
      ensures !(reply == Answered(true) && refresh.ListAnswered?) ==>
                isDialogOpen == old(isDialogOpen) && form == old(form)
                && isEditMode == old(isEditMode) && selectedUser == old(selectedUser)
      ensures loading == old(loading) && searchQuery == old(searchQuery)
    {
      if isEditMode && selectedUser.Some? {
        target := Some(selectedUser.value.id);
        payload := UpdatePayload(form);
      } else {
        target := None;
        payload := CreatePayload(form);
      }
      if reply == Answered(true) && refresh.ListAnswered? {
        if refresh.success {
          users := refresh.data;
        }
        isDialogOpen := false;
        ResetForm();
      }
    }

    /** `handleDelete`: a successful delete removes every user with that id. */
    method HandleDelete(id: int, reply: Reply)
      modifies this
      ensures reply == Answered(true) ==> users == WithoutId(old(users), id)
      ensures reply != Answered(true) ==> users == old(users)
      ensures loading == old(loading) && isDialogOpen == old(isDialogOpen) && isEditMode == old(isEditMode)
      ensures searchQuery == old(searchQuery) && selectedUser == old(selectedUser) && form == old(form)
    {
      if reply == Answered(true) {
        users := WithoutId(users, id);
      }
    }
  }
}
