/**
 * `UserList.handle_action`: the four editing actions of the user editor over
 * the ordered list of users. `Apply` states the new list as a function of the
 * old one; `HandleAction` performs the actions on an array the way the
 * source does on its list, updating an entry in place for a password change
 * or a promotion and building a new list for an addition or a deletion.
 */
module UserEditor {
  import opened Wrappers
  import opened Users
  import AddUserFlow

  /** The editor's actions; `Unrecognised` stands for any other action text. */
  datatype Action = Add | ChangePassword | PromoteDemote | Delete | Unrecognised

  /** Index of the first entry equal to `entry` (what `next(filter(...))` finds). */
  function FirstIndex(data: seq<User>, entry: User): (i: nat)
    requires entry in data
    ensures i < |data| && data[i] == entry
    ensures entry !in data[..i]
  {
    if data[0] == entry then 0
    else
      var i := 1 + FirstIndex(data[1..], entry);
      assert data[..i] == [data[0]] + data[1..][..i - 1];
      i
  }

  /** `[d for d in data if d.username != name]`. */
  function WithoutUsername(data: seq<User>, name: string): (r: seq<User>)
    ensures forall x :: x in r <==> x in data && x.username != name
    ensures |r| == |data| - CountName(data, name)
    ensures CountName(r, name) == 0
  {
    if data == [] then []
    else if data[0].username != name then [data[0]] + WithoutUsername(data[1..], name)
    else WithoutUsername(data[1..], name)
  }

  /** `[d for d in data if d != entry]`. */
  function Without(data: seq<User>, entry: User): (r: seq<User>)
    ensures forall x :: x in r <==> x in data && x != entry
    ensures |r| == |data| - multiset(data)[entry]
  {
    if data == [] then []
    else
      assert data == [data[0]] + data[1..];
      if data[0] != entry then [data[0]] + Without(data[1..], entry)
      else Without(data[1..], entry)
  }

  /**
   * The Add action with a new user: every entry with the new user's
   * username is dropped, and the new user is appended.
   */
  function Added(data: seq<User>, u: User): (r: seq<User>)
    ensures |r| >= 1 && r[|r| - 1] == u
    ensures forall x :: x in r <==> x == u || (x in data && x.username != u.username)
    ensures CountName(r, u.username) == 1
  {
    var kept := WithoutUsername(data, u.username);
    CountNameAppend(kept, [u], u.username);
    kept + [u]
  }

  /**
   * The Change password action: the first entry equal to `entry` gets
   * `password`; every other position, later equal copies included, is kept.
   */
  function WithPassword(data: seq<User>, entry: User, password: Password): (r: seq<User>)
    requires entry in data
    ensures |r| == |data|
    ensures exists i :: && 0 <= i < |data| && data[i] == entry && entry !in data[..i]
                        && r[i] == entry.(password := password)
                        && forall k :: 0 <= k < |data| && k != i ==> r[k] == data[k]
  {
    var i := FirstIndex(data, entry);
    data[i := data[i].(password := password)]
  }

  /**
   * The Promote/Demote action: `sudo` of the first entry equal to `entry` is
   * flipped; every other position, later equal copies included, is kept.
   */
  function Toggled(data: seq<User>, entry: User): (r: seq<User>)
    requires entry in data
    ensures |r| == |data|
    ensures exists i :: && 0 <= i < |data| && data[i] == entry && entry !in data[..i]
                        && r[i] == entry.(sudo := !entry.sudo)
                        && forall k :: 0 <= k < |data| && k != i ==> r[k] == data[k]
  {
    var i := FirstIndex(data, entry);
    data[i := data[i].(sudo := !data[i].sudo)]
  }

  /**
   * The selected entry is in the list whenever an action looks it up: the
   * editor offers the entries of its list for selection, and `next` on an
   * empty filter would raise.
   */
  predicate LookupDefined(action: Action, entry: Option<User>, newPassword: Option<Password>, data: seq<User>)
  {
    (entry.Some? && (action == PromoteDemote || (action == ChangePassword && newPassword.Some?)))
    ==> entry.value in data
  }

  /**
   * The list `handle_action` returns, given the user `_add_user` produced
   * (for Add) and the answer of the password helper (for Change password).
   * Add only drops old entries and appends the added user; Delete only drops
   * old entries; the other actions keep every username in its place.
   */
  function Apply(action: Action, entry: Option<User>, added: Option<User>,
                 newPassword: Option<Password>, data: seq<User>): (r: seq<User>)
    requires LookupDefined(action, entry, newPassword, data)
    ensures action == Add ==> |r| <= |data| + 1 && forall x :: x in r ==> x in data || Some(x) == added
    ensures action == Delete ==> |r| <= |data| && forall x :: x in r ==> x in data
    ensures action != Add && action != Delete ==> Usernames(r) == Usernames(data)
  {
    match action
    case Add => if added.Some? then Added(data, added.value) else data
    case ChangePassword =>
      if entry.Some? && newPassword.Some? then
        WithPasswordEffect(data, entry.value, newPassword.value);
        WithPassword(data, entry.value, newPassword.value)
      else data
    case PromoteDemote =>
      if entry.Some? then
        ToggledEffect(data, entry.value);
        Toggled(data, entry.value)
      else data
    case Delete => if entry.Some? then Without(data, entry.value) else data
    case Unrecognised => data
  }

  // ----- Add -----

  /** Dropping the entries with one username keeps the others' usernames distinct. */
  lemma {:induction false} WithoutUsernameKeepsUnique(data: seq<User>, name: string)
    requires UniqueUsernames(data)
    ensures UniqueUsernames(WithoutUsername(data, name))
  {
    if data != [] {
      assert data == [data[0]] + data[1..];
      UniqueCons(data[0], data[1..]);
      WithoutUsernameKeepsUnique(data[1..], name);
      if data[0].username != name {
        UniqueCons(data[0], WithoutUsername(data[1..], name));
      }
    }
  }

  /** Adding a user keeps usernames unique. */
  lemma AddKeepsUnique(data: seq<User>, u: User)
    requires UniqueUsernames(data)
    ensures UniqueUsernames(Added(data, u))
  {
    var kept := WithoutUsername(data, u.username);
    WithoutUsernameKeepsUnique(data, u.username);
    var r := kept + [u];
    forall i, j | 0 <= i < j < |r| ensures r[i].username != r[j].username {
      if j == |r| - 1 {
        assert r[i] == kept[i] && r[i] in kept;
      } else {
        assert r[i] == kept[i] && r[j] == kept[j];
      }
    }
  }

  /**
   * On a list with unique usernames, adding a user whose username is taken
   * replaces that entry (the length is unchanged); otherwise the list grows
   * by one.
   */
  lemma AddLength(data: seq<User>, u: User)
    requires UniqueUsernames(data)
    ensures (exists x :: x in data && x.username == u.username) ==> |Added(data, u)| == |data|
    ensures (forall x :: x in data ==> x.username != u.username) ==> |Added(data, u)| == |data| + 1
  {
    UniqueCountAtMostOne(data, u.username);
  }

  /** The new user ends up where the old entries with its username were removed, in order. */
  lemma {:induction false} WithoutUsernameAppend(a: seq<User>, b: seq<User>, name: string)
    ensures WithoutUsername(a + b, name) == WithoutUsername(a, name) + WithoutUsername(b, name)
  {
    if a == [] {
      assert a + b == b;
    } else {
      assert (a + b)[1..] == a[1..] + b;
      WithoutUsernameAppend(a[1..], b, name);
    }
  }

  // ----- Change password and Promote/Demote -----

  /**
   * Changing a password keeps every username in place, so the entry with the
   * new password is in the list. Under unique usernames it is the only
   * entry with the selected username.
   */
  lemma WithPasswordEffect(data: seq<User>, entry: User, password: Password)
    requires entry in data
    ensures var r := WithPassword(data, entry, password);
            && Usernames(r) == Usernames(data)
            && entry.(password := password) in r
            && (UniqueUsernames(data) ==>
                  forall x :: x in r && x.username == entry.username ==> x == entry.(password := password))
  {
    var r := WithPassword(data, entry, password);
    var i := FirstIndex(data, entry);
    assert r[i] == entry.(password := password);
    SameUsernames(r, data);
    if UniqueUsernames(data) {
      forall x | x in r && x.username == entry.username ensures x == entry.(password := password) {
        var k :| 0 <= k < |r| && r[k] == x;
        assert data[k].username == data[i].username;
      }
    }
  }

  /**
   * Promote/Demote keeps every username in place, so the flipped entry is in
   * the list. Under unique usernames it is the only entry with the selected
   * username.
   */
  lemma ToggledEffect(data: seq<User>, entry: User)
    requires entry in data
    ensures var r := Toggled(data, entry);
            && Usernames(r) == Usernames(data)
            && entry.(sudo := !entry.sudo) in r
            && (UniqueUsernames(data) ==>
                  forall x :: x in r && x.username == entry.username ==> x == entry.(sudo := !entry.sudo))
  {
    var r := Toggled(data, entry);
    var i := FirstIndex(data, entry);
    assert r[i] == entry.(sudo := !entry.sudo);
    SameUsernames(r, data);
    if UniqueUsernames(data) {
      forall x | x in r && x.username == entry.username ensures x == entry.(sudo := !entry.sudo) {
        var k :| 0 <= k < |r| && r[k] == x;
        assert data[k].username == data[i].username;
      }
    }
  }

  /**
   * Doing Promote/Demote twice on the same entry (which, once flipped, is
   * the flipped record) restores the list, as long as usernames are unique.
   */
  lemma ToggleTwice(data: seq<User>, entry: User)
    requires UniqueUsernames(data) && entry in data
    ensures entry.(sudo := !entry.sudo) in Toggled(data, entry)
    ensures Toggled(Toggled(data, entry), entry.(sudo := !entry.sudo)) == data
  {
    var i := FirstIndex(data, entry);
    var once := Toggled(data, entry);
    var flipped := entry.(sudo := !entry.sudo);
    assert once[i] == flipped;
    assert flipped !in once[..i] by {
      forall k | 0 <= k < i ensures once[k] != flipped {
        assert once[k] == data[k];
        assert data[k].username != data[i].username;
      }
    }
    assert flipped in once[..i + 1] && once[..i + 1] == once[..i] + [flipped];
    FirstIndexIs(once, flipped, i);
  }

  /** The first index is the one before which the entry does not occur. */
  lemma FirstIndexIs(data: seq<User>, entry: User, i: nat)
    requires i < |data| && data[i] == entry && entry !in data[..i]
    ensures FirstIndex(data, entry) == i
  {
  }

  // ----- Delete -----

  /**
   * Deletion removes every entry equal to the selected one and keeps every
   * other entry as often as it occurred.
   */
  lemma {:induction false} DeleteKeepsOthers(data: seq<User>, entry: User)
    ensures multiset(Without(data, entry))[entry] == 0
    ensures forall x :: x != entry ==> multiset(Without(data, entry))[x] == multiset(data)[x]
  {
    if data != [] {
      assert data == [data[0]] + data[1..];
      DeleteKeepsOthers(data[1..], entry);
    }
  }

  /** Deletion keeps the order of the remaining entries: it works piecewise over a concatenation. */
  lemma {:induction false} WithoutAppend(a: seq<User>, b: seq<User>, entry: User)
    ensures Without(a + b, entry) == Without(a, entry) + Without(b, entry)
  {
    if a == [] {
      assert a + b == b;
    } else {
      assert (a + b)[1..] == a[1..] + b;
      WithoutAppend(a[1..], b, entry);
    }
  }

  /** Deleting an entry that is not in the list changes nothing. */
  lemma {:induction false} WithoutAbsent(data: seq<User>, entry: User)
    requires entry !in data
    ensures Without(data, entry) == data
  {
    if data != [] {
      assert data == [data[0]] + data[1..];
      WithoutAbsent(data[1..], entry);
    }
  }

  /** Deleting the same entry twice is the same as deleting it once. */
  lemma DeleteIdempotent(data: seq<User>, entry: User)
    ensures Without(Without(data, entry), entry) == Without(data, entry)
  {
    WithoutAbsent(Without(data, entry), entry);
  }

  /** Deletion of entries from a list with unique usernames keeps them unique. */
  lemma {:induction false} WithoutKeepsUnique(data: seq<User>, entry: User)
    requires UniqueUsernames(data)
    ensures UniqueUsernames(Without(data, entry))
  {
    if data != [] {
      assert data == [data[0]] + data[1..];
      UniqueCons(data[0], data[1..]);
      WithoutKeepsUnique(data[1..], entry);
      if data[0] != entry {
        UniqueCons(data[0], Without(data[1..], entry));
      }
    }
  }

  // ----- All actions -----

  /** No action can give two entries the same username. */
  lemma ApplyKeepsUnique(action: Action, entry: Option<User>, added: Option<User>,
                         newPassword: Option<Password>, data: seq<User>)
    requires LookupDefined(action, entry, newPassword, data)
    requires UniqueUsernames(data)
    ensures UniqueUsernames(Apply(action, entry, added, newPassword, data))
  {
    match action
    case Add => if added.Some? { AddKeepsUnique(data, added.value); }
    case ChangePassword =>
      var r := Apply(action, entry, added, newPassword, data);
      assert forall k :: 0 <= k < |r| ==> r[k].username == Usernames(r)[k] == data[k].username;
    case PromoteDemote =>
      var r := Apply(action, entry, added, newPassword, data);
      assert forall k :: 0 <= k < |r| ==> r[k].username == Usernames(r)[k] == data[k].username;
    case Delete => if entry.Some? { WithoutKeepsUnique(data, entry.value); }
    case Unrecognised =>
  }

  /**
   * The cases in which `handle_action` hands the list back unchanged: an
   * unrecognised action, Add when no user was created, Change password
   * without a password, and any entry action without a selected entry.
   */
  lemma ApplyUnchanged(action: Action, entry: Option<User>, added: Option<User>,
                       newPassword: Option<Password>, data: seq<User>)
    requires LookupDefined(action, entry, newPassword, data)
    requires || action == Unrecognised
             || (action == Add && added.None?)
             || (action == ChangePassword && (entry.None? || newPassword.None?))
             || (action in {PromoteDemote, Delete} && entry.None?)
    ensures Apply(action, entry, added, newPassword, data) == data
  {
  }

  /**
   * Adding "alice" (superuser, default shell) to an empty list, then adding
   * "alice" again without superuser rights, leaves a single "alice" entry
   * that is not a superuser.
   */
  lemma ReplaceScenario(pw1: Password, pw2: Password)
    ensures var first := AddUserFlow.Answers(
              AddUserFlow.Selection("alice"), Some(pw1), AddUserFlow.Selection(true),
              AddUserFlow.Skip, AddUserFlow.Other);
            var second := AddUserFlow.Answers(
              AddUserFlow.Selection("alice"), Some(pw2), AddUserFlow.Selection(false),
              AddUserFlow.Skip, AddUserFlow.Other);
            var alice := User("alice", pw1, true, AddUserFlow.DefaultShell, None);
            && AddUserFlow.AddUser(first) == Success(Some(alice))
            && Apply(Add, None, Some(alice), None, []) == [alice]
            && AddUserFlow.AddUser(second) == Success(Some(alice.(password := pw2, sudo := false)))
            && Apply(Add, None, Some(alice.(password := pw2, sudo := false)), None, [alice])
                 == [alice.(password := pw2, sudo := false)]
  {
  }

  // ----- The action on the list object -----

  /** `next(filter(lambda x: x == entry, data))`: the first entry equal to `entry`. */
  method FindFirst(data: array<User>, entry: User) returns (i: nat)
    requires entry in data[..]
    ensures i == FirstIndex(data[..], entry)
  {
    i := 0;
    while data[i] != entry
      invariant i < data.Length
      invariant entry !in data[..i]
      invariant entry in data[i..]
      decreases data.Length - i
    {
      assert data[i..] == [data[i]] + data[i + 1..];
      assert data[..i + 1] == data[..i] + [data[i]];
      i := i + 1;
    }
    FirstIndexIs(data[..], entry, i);
  }

  /**
   * `handle_action`. For Add it runs the add flow on `answers` and fails when
   * the flow raises; for Change password `newPassword` is what the password
   * helper returned. The list returned is `data` itself when the action
   * updates an entry in place or changes nothing, and a new list (with
   * `data` left as it was) when Add or Delete rebinds it.
   */
  method HandleAction(action: Action, entry: Option<User>, answers: AddUserFlow.Answers,
                      newPassword: Option<Password>, data: array<User>)
    returns (r: Result<array<User>, AddUserFlow.FlowError>)
    requires LookupDefined(action, entry, newPassword, data[..])
    modifies data
    ensures r.Failure? <==> action == Add && AddUserFlow.AddUser(answers).Failure?
    ensures r.Failure? ==> data[..] == old(data[..])
    ensures r.Success? ==>
              var added := if action == Add then AddUserFlow.AddUser(answers).value else None;
              && r.value[..] == Apply(action, entry, added, newPassword, old(data[..]))
              && (((action == Add && added.Some?) || (action == Delete && entry.Some?))
                  ==> fresh(r.value) && data[..] == old(data[..]))
              && (!((action == Add && added.Some?) || (action == Delete && entry.Some?))
                  ==> r.value == data)
  {
    match action
    case Add =>
      var outcome := AddUserFlow.AddUser(answers);
      if outcome.Failure? {
        return Failure(outcome.error);
      }
      if outcome.value.Some? {
        var s := Added(data[..], outcome.value.value);
        var copy := new User[|s|](k requires 0 <= k < |s| => s[k]);
        return Success(copy);
      }
      return Success(data);
    case ChangePassword =>
      if entry.Some? && newPassword.Some? {
        var i := FindFirst(data, entry.value);
        data[i] := data[i].(password := newPassword.value);
      }
      return Success(data);
    case PromoteDemote =>
      if entry.Some? {
        var i := FindFirst(data, entry.value);
        data[i] := data[i].(sudo := !data[i].sudo);
      }
      return Success(data);
    case Delete =>
      if entry.Some? {
        var s := Without(data[..], entry.value);
        var copy := new User[|s|](k requires 0 <= k < |s| => s[k]);
        return Success(copy);
      }
      return Success(data);
    case Unrecognised =>
      return Success(data);
  }
}
