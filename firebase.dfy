/**
 * The `/userscount` and `/users` handlers of src/routes/firebase.js, over the
 * snapshot of the users kept by the realtime listener.
 */
module Firebase {
  import opened Wrappers

  /** The value of a user's `isAnonymous` field as `===` sees it: the boolean
      it holds, or `NotBool` for any other value and for a missing field. */
  datatype FlagValue = Bool(b: bool) | NotBool

  /** A user object of the snapshot. */
  class User {
    const isAnonymous: FlagValue
    const fields: map<string, string>
    var id: Option<string>

    constructor (isAnonymous: FlagValue, fields: map<string, string>)
      ensures this.isAnonymous == isAnonymous && this.fields == fields && id == None
    {
      this.isAnonymous := isAnonymous;
      this.fields := fields;
      id := None;
    }
  }

  /** The number of users whose `isAnonymous` is `flag`. */
  function CountFlag(users: seq<User>, flag: FlagValue): nat {
    if users == [] then 0
    else CountFlag(users[..|users| - 1], flag) + (if users[|users| - 1].isAnonymous == flag then 1 else 0)
  }

  /** Every user is in exactly one of the three classes. */
  lemma {:induction false} CountsPartition(users: seq<User>)
    ensures CountFlag(users, Bool(true)) + CountFlag(users, Bool(false)) + CountFlag(users, NotBool) == |users|
  {
    if users != [] {
      CountsPartition(users[..|users| - 1]);
    }
  }

  /**
   * `/userscount`. `isAnonymous === true` counts as registered and
   * `=== false` as anonymous, exactly as the handler labels them; any other
   * value counts as unknown.
   */
  method UsersCount(users: seq<User>) returns (registered: nat, anonymous: nat, unknown: nat)
    ensures registered == CountFlag(users, Bool(true))
    ensures anonymous == CountFlag(users, Bool(false))
    ensures unknown == CountFlag(users, NotBool)
    ensures registered + anonymous + unknown == |users|
  {
    registered, anonymous, unknown := 0, 0, 0;
    for i := 0 to |users|
      invariant registered == CountFlag(users[..i], Bool(true))
      invariant anonymous == CountFlag(users[..i], Bool(false))
      invariant unknown == CountFlag(users[..i], NotBool)
    {
      assert users[..i + 1][..i] == users[..i];
      var user := users[i];
      if user.isAnonymous == Bool(true) {
        registered := registered + 1;
      } else if user.isAnonymous == Bool(false) {
        anonymous := anonymous + 1;
      } else {
        unknown := unknown + 1;
      }
    }
    assert users[..|users|] == users;
    CountsPartition(users);
  }

  /**
   * `/users`: `_.values(_.mapValues(db.users, (value, key) => { value.id = key; return value; }))`.
   * `db` lists the key and the user object of each property of `db.users`, in
   * property order; each object is given its key as `id`, in place, and the
   * objects are returned in that order.
   */
  method ListUsers(db: seq<(string, User)>) returns (data: seq<User>)
    requires forall i, j :: 0 <= i < j < |db| ==> db[i].1 != db[j].1
    modifies set i | 0 <= i < |db| :: db[i].1
    ensures |data| == |db|
    ensures forall i :: 0 <= i < |db| ==> data[i] == db[i].1 && data[i].id == Some(db[i].0)
  {
    data := [];
    for i := 0 to |db|
      invariant |data| == i
      invariant forall j :: 0 <= j < i ==> data[j] == db[j].1 && data[j].id == Some(db[j].0)
    {
      var (key, value) := db[i];
      value.id := Some(key);
      data := data + [value];
    }
  }
}
