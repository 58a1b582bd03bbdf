/**
 * The user registry: `UserManager.users`, a dictionary from username to `User`,
 * and the add / update / delete callbacks of the user-management dialog that
 * change it and refresh the user table.
 */
module Registry {
  import opened Values
  import opened Seqs

  /** The `User` dataclass. */
  datatype User = User(name: string, googleSheetId: string, active: bool, workload: int)

  /** `User(name=..., google_sheet_id=...)`: the dataclass defaults make a new user active with no workload. */
  function NewUser(name: string, googleSheetId: string): (u: User)
    ensures u.name == name && u.googleSheetId == googleSheetId
    ensures u.active && u.workload == 0
  {
    User(name, googleSheetId, true, 0)
  }

  /** One row of the user table: `status` is "Active" or "Inactive". */
  datatype TableRow = TableRow(username: string, name: string, googleSheetId: string, status: string, workload: int)

  datatype Color = Success | Warning | Danger

  /** A `dbc.Alert`: its colour and its text. */
  datatype Alert = Alert(color: Color, message: string)

  function StatusText(active: bool): string
  {
    if active then "Active" else "Inactive"
  }

  /** `order` with `name` taken out; the dictionary order of the other keys is kept. */
  function Without(order: seq<string>, name: string): (r: seq<string>)
    requires Distinct(order)
    ensures Distinct(r) && IsSubsequence(r, order)
    ensures forall u :: u in r <==> u in order && u != name
  {
    var p := (u: string) => u != name;
    KeepDistinct(order, p);
    KeepIsSubsequence(order, p);
    forall u ensures u in Keep(order, p) <==> u in order && u != name {
      KeepMembers(order, p, u);
    }
    Keep(order, p)
  }

  function TableRows(order: seq<string>, users: map<string, User>): (t: seq<TableRow>)
    requires forall i :: 0 <= i < |order| ==> order[i] in users
    ensures |t| == |order|
    ensures forall i :: 0 <= i < |t| ==> t[i].username == order[i]
  {
    seq(|order|, i requires 0 <= i < |order| =>
      var u := users[order[i]];
      TableRow(order[i], u.name, u.googleSheetId, StatusText(u.active), u.workload))
  }

  /** A table built from a key order without repeats has one row per key of the dictionary. */
  lemma TableRowsCover(order: seq<string>, users: map<string, User>)
    requires Distinct(order)
    requires forall u :: u in users <==> u in order
    requires forall i :: 0 <= i < |order| ==> order[i] in users
    ensures |order| == |users|
    ensures forall u :: u in users <==> exists i :: 0 <= i < |TableRows(order, users)| && TableRows(order, users)[i].username == u
  {
    ValuesOfDistinct(order);
    assert ValueSet(order) == users.Keys;
    var t := TableRows(order, users);
    forall u | u in users ensures exists i :: 0 <= i < |t| && t[i].username == u {
      var i :| 0 <= i < |order| && order[i] == u;
      assert t[i].username == u;
    }
  }

  /** The seven users the registry starts with. */
  const SeedOrder: seq<string> :=
    ["razan.hassan", "aya.tahawi", "maya.dayoub", "laila.alhafi", "ehab.joud", "hala.khaddour", "marah.ghanem"]

  const SeedUsers: map<string, User> := map[
    "razan.hassan" := NewUser("Razan Hassan", "14dpPJUFwMXTFemq8b2as3Jpwj_Qs-kplradlM63lS_U"),
    "aya.tahawi" := NewUser("Aya Tahawi", "1hkB77aTFTalcZtUG9xfNKH3b7nIgYAZP1-AF6Ob7szE"),
    "maya.dayoub" := NewUser("Maya Dayoub", "1fDaIXfSGEKlUTlVprS7_SjG1wbhaGk1kVLvZXTia6QU"),
    "laila.alhafi" := NewUser("Laila Alhafi", "1nCzh8FMZOGa2x7v_OLIUtVEtAc4hzUG3f-rIgHJgEF8"),
    "ehab.joud" := NewUser("Ehab Joud", "1WccFTrR-Izh4qpRSnDD9A_nq8MWm0l54fqFJu4eJPYY"),
    "hala.khaddour" := NewUser("Hala Khaddour", "1_zM3sANFMHXvjSFvIHCtG2sKiS7GBWk8haUCoYBm1XU"),
    "marah.ghanem" := NewUser("Marah Ghanem", "1z88anA3_FKx6xo3fc4bci22-J8naoiEYdbcK8eiN8CM")
  ]

  class UserManager {
    /** `self.users`. */
    var users: map<string, User>
    /** The dictionary's key order: insertion order, which `users.items()` follows. */
    var order: seq<string>

    ghost predicate Valid()
      reads this
    {
      && Distinct(order)
      && (forall u :: u in users <==> u in order)
      && (forall i :: 0 <= i < |order| ==> order[i] in users)
    }

    /** The user table built from `users.items()`, one row per user in dictionary order. */
    function Table(): (t: seq<TableRow>)
      reads this
      requires Valid()
      ensures |t| == |order| == |users|
      ensures forall u :: u in users <==> exists i :: 0 <= i < |t| && t[i].username == u
      ensures forall i :: 0 <= i < |t| ==>
        var u := users[order[i]];
        t[i] == TableRow(order[i], u.name, u.googleSheetId, StatusText(u.active), u.workload)
    {
      TableRowsCover(order, users);
      TableRows(order, users)
    }

    constructor ()
      ensures Valid()
      ensures users == SeedUsers && order == SeedOrder
    {
      users := SeedUsers;
      order := SeedOrder;
    }

    /** The `add_user` callback. Fails, changing nothing, when a field is empty or the username is taken;
        otherwise adds exactly one key, an active user with no workload, at the end of the dictionary. */
    method AddUser(username: string, fullname: string, sheetId: string) returns (alert: Alert, table: Option<seq<TableRow>>)
      requires Valid()
      modifies this
      ensures Valid()
      ensures username == "" || fullname == "" || sheetId == "" ==>
        && alert == Alert(Warning, "Please fill in all fields.") && table == None
        && users == old(users) && order == old(order)
      ensures username != "" && fullname != "" && sheetId != "" && username in old(users) ==>
        && alert == Alert(Danger, "User '" + username + "' already exists.") && table == None
        && users == old(users) && order == old(order)
      ensures username != "" && fullname != "" && sheetId != "" && username !in old(users) ==>
        && users == old(users)[username := NewUser(fullname, sheetId)]
        && order == old(order) + [username]
        && alert == Alert(Success, "User '" + username + "' added successfully.")
        && table == Some(Table())
    {
      if username == "" || fullname == "" || sheetId == "" {
        return Alert(Warning, "Please fill in all fields."), None;
      }
      if username in users {
        return Alert(Danger, "User '" + username + "' already exists."), None;
      }
      users := users[username := NewUser(fullname, sheetId)];
      order := order + [username];
      alert, table := Alert(Success, "User '" + username + "' added successfully."), Some(Table());
    }

    /** The `update_user` callback. Fails, changing nothing, when the username is empty or unknown;
        otherwise overwrites the name and the sheet id of that user only where a non-empty value is
        given, and leaves every other entry and the key order as they were. */
    method UpdateUser(username: string, fullname: string, sheetId: string) returns (alert: Alert, table: Option<seq<TableRow>>)
      requires Valid()
      modifies this
      ensures Valid()
      ensures username == "" ==>
        && alert == Alert(Warning, "Please enter a username.") && table == None
        && users == old(users) && order == old(order)
      ensures username != "" && username !in old(users) ==>
        && alert == Alert(Danger, "User '" + username + "' does not exist.") && table == None
        && users == old(users) && order == old(order)
      ensures username != "" && username in old(users) ==>
        && var before := old(users)[username];
        && users == old(users)[username := User(
             if fullname != "" then fullname else before.name,
             if sheetId != "" then sheetId else before.googleSheetId,
             before.active, before.workload)]
        && order == old(order)
        && alert == Alert(Success, "User '" + username + "' updated successfully.")
        && table == Some(Table())
    {
      if username == "" {
        return Alert(Warning, "Please enter a username."), None;
      }
      if username !in users {
        return Alert(Danger, "User '" + username + "' does not exist."), None;
      }
      ghost var before := users[username];
      var user := users[username];
      if fullname != "" {
        user := user.(name := fullname);
      }
      if sheetId != "" {
        user := user.(googleSheetId := sheetId);
      }
      assert user == User(if fullname != "" then fullname else before.name,
                          if sheetId != "" then sheetId else before.googleSheetId,
                          before.active, before.workload);
      assert users[username := user].Keys == users.Keys;
      users := users[username := user];
      alert, table := Alert(Success, "User '" + username + "' updated successfully."), Some(Table());
    }

    /** The `delete_user` callback. Fails, changing nothing, when the username is empty or unknown;
        otherwise removes exactly that key and keeps the order of the others. */
    method DeleteUser(username: string) returns (alert: Alert, table: Option<seq<TableRow>>)
      requires Valid()
      modifies this
      ensures Valid()
      ensures username == "" ==>
        && alert == Alert(Warning, "Please enter a username.") && table == None
        && users == old(users) && order == old(order)
      ensures username != "" && username !in old(users) ==>
        && alert == Alert(Danger, "User '" + username + "' does not exist.") && table == None
        && users == old(users) && order == old(order)
      ensures username != "" && username in old(users) ==>
        && users == old(users) - {username}
        && order == Without(old(order), username)
        && alert == Alert(Success, "User '" + username + "' deleted successfully.")
        && table == Some(Table())
    {
      if username == "" {
        return Alert(Warning, "Please enter a username."), None;
      }
      if username !in users {
        return Alert(Danger, "User '" + username + "' does not exist."), None;
      }
      users := users - {username};
      order := Without(order, username);
      alert, table := Alert(Success, "User '" + username + "' deleted successfully."), Some(Table());
    }
  }

  /** Adding a user and then deleting it gives back the registry it started from. */
  lemma AddThenDelete(users: map<string, User>, order: seq<string>, username: string, u: User)
    requires Distinct(order) && username !in order && username !in users
    ensures users[username := u] - {username} == users
    ensures Without(order + [username], username) == order
  {
    var o := order + [username];
    assert Distinct(o) by {
      forall i, j | 0 <= i < j < |o| ensures o[i] != o[j] {
        if j == |order| { assert o[i] == order[i]; }
      }
    }
    var p := (x: string) => x != username;
    KeepAll(order, p);
    KeepAppendLast(order, username, p);
  }

  lemma {:induction false} KeepAppendLast(s: seq<string>, x: string, p: string -> bool)
    requires !p(x)
    ensures Keep(s + [x], p) == Keep(s, p)
  {
    if |s| > 0 {
      assert (s + [x])[1..] == s[1..] + [x];
      KeepAppendLast(s[1..], x, p);
    }
  }
}
