/**
 * The user record the editor works on, and the uniqueness invariant the
 * editor keeps over a list of such records.
 */
module Users {
  import opened Wrappers

  /** A password as the password helper hands it back; its content is opaque here. */
  datatype Password = Password(secret: string)

  /**
   * One system account to be created. Equality is structural, as for the
   * source's `User` record: two entries are equal when every field is.
   */
  datatype User = User(
    username: string,
    password: Password,
    sudo: bool,
    shell: string,
    fullName: Option<string>)

  /** No two entries of the list share a username. */
  ghost predicate UniqueUsernames(data: seq<User>)
  {
    forall i, j :: 0 <= i < j < |data| ==> data[i].username != data[j].username
  }

  /** The usernames of the list, in list order. */
  function Usernames(data: seq<User>): (names: seq<string>)
    ensures |names| == |data|
    ensures forall i :: 0 <= i < |data| ==> names[i] == data[i].username
  {
    if data == [] then [] else [data[0].username] + Usernames(data[1..])
  }

  /** How many entries carry the username `name`. */
  function CountName(data: seq<User>, name: string): nat
  {
    if data == [] then 0
    else (if data[0].username == name then 1 else 0) + CountName(data[1..], name)
  }

  /** A list starting with `u` is unique iff its tail is and no tail entry shares `u`'s username. */
  lemma UniqueCons(u: User, rest: seq<User>)
    ensures UniqueUsernames([u] + rest) <==>
              UniqueUsernames(rest) && forall x :: x in rest ==> x.username != u.username
  {
    var s := [u] + rest;
    assert s[1..] == rest;
    if UniqueUsernames(s) {
      forall x | x in rest ensures x.username != u.username {
        var k :| 0 <= k < |rest| && rest[k] == x;
        assert s[0] == u && s[k + 1] == x;
        assert s[0].username != s[k + 1].username;
      }
    }
    if UniqueUsernames(rest) && forall x :: x in rest ==> x.username != u.username {
      forall i, j | 0 <= i < j < |s| ensures s[i].username != s[j].username {
        if i > 0 {
          assert s[i] == rest[i - 1] && s[j] == rest[j - 1];
        } else {
          assert s[j] == rest[j - 1];
          assert s[j] in rest;
        }
      }
    }
  }

  /** Under the uniqueness invariant each username occurs at most once. */
  lemma {:induction false} UniqueCountAtMostOne(data: seq<User>, name: string)
    requires UniqueUsernames(data)
    ensures CountName(data, name) <= 1
    ensures CountName(data, name) == 0 <==> forall x :: x in data ==> x.username != name
  {
    if data != [] {
      assert data == [data[0]] + data[1..];
      UniqueCons(data[0], data[1..]);
      UniqueCountAtMostOne(data[1..], name);
      if data[0].username == name {
        assert forall x :: x in data[1..] ==> x.username != name;
      }
    }
  }

  /** Counting usernames distributes over concatenation. */
  lemma {:induction false} CountNameAppend(a: seq<User>, b: seq<User>, name: string)
    ensures CountName(a + b, name) == CountName(a, name) + CountName(b, name)
  {
    if a != [] {
      assert (a + b)[1..] == a[1..] + b;
      CountNameAppend(a[1..], b, name);
    } else {
      assert a + b == b;
    }
  }

  /** Lists whose entries carry the same usernames position by position have the same usernames. */
  lemma SameUsernames(a: seq<User>, b: seq<User>)
    requires |a| == |b|
    requires forall k :: 0 <= k < |a| ==> a[k].username == b[k].username
    ensures Usernames(a) == Usernames(b)
  {
  }
}
