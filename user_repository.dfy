/**
 * `UserRepository`: the `users` table as a map from generated id to row, with
 * the operations of the Spring Data repository the services call
 * (`findById`, `findByUsername`, `findAll`, `save`, `delete`). A backend
 * failure of `save` or `delete` is an input flag.
 */
module Repository {
  import opened Domain

  /** Some row of `users` has exactly this username (case-sensitive). */
  ghost predicate HasUsername(users: map<int, User>, username: string)
  {
    exists id :: id in users && users[id].username == username
  }

  /** No two rows share a username: the invariant the services keep by checking before they save. */
  ghost predicate UniqueUsernames(users: map<int, User>)
  {
    forall i, j :: i in users && j in users && users[i].username == users[j].username ==> i == j
  }

  /** Adding a row under a fresh id keeps usernames unique when its username is not taken. */
  lemma InsertKeepsUnique(users: map<int, User>, id: int, u: User)
    requires UniqueUsernames(users) && id !in users && !HasUsername(users, u.username)
    ensures UniqueUsernames(users[id := u])
  {
  }

  /**
   * Overwriting row `id` keeps usernames unique when the new username is the
   * row's own or is not taken by any row.
   */
  lemma OverwriteKeepsUnique(users: map<int, User>, id: int, u: User)
    requires UniqueUsernames(users) && id in users
    requires u.username == users[id].username || !HasUsername(users, u.username)
    ensures UniqueUsernames(users[id := u])
  {
  }

  /** The ids of the rows listed in `rows`. */
  ghost function IdsOf(rows: seq<User>): set<int>
  {
    set i | 0 <= i < |rows| :: rows[i].id
  }

  lemma IdsOfAppend(rows: seq<User>, u: User)
    ensures IdsOf(rows + [u]) == IdsOf(rows) + {u.id}
  {
    var rows' := rows + [u];
    forall x | x in IdsOf(rows) + {u.id}
      ensures x in IdsOf(rows')
    {
      if x == u.id {
        assert rows'[|rows|].id == x;
      } else {
        var i :| 0 <= i < |rows| && rows[i].id == x;
        assert rows'[i].id == x;
      }
    }
  }

  class UserRepository {
    var users: map<int, User>
    /** The next id the store generates; ids start at 1, so 0 marks a row not yet saved. */
    var nextId: int

    ghost predicate Valid()
      reads this
    {
      && 0 < nextId
      && forall id :: id in users ==> 0 < id < nextId && users[id].id == id
    }

    constructor ()
      ensures Valid() && users == map[] && nextId == 1
    {
      users := map[];
      nextId := 1;
    }

    function FindById(id: int): (r: Option<User>)
      reads this
      ensures r.Some? <==> id in users
      ensures r.Some? ==> r.value == users[id]
    {
      if id in users then Some(users[id]) else None
    }

    function FindByUsername(username: string): (r: Option<User>)
      reads this
      requires Valid() && UniqueUsernames(users)
      ensures r.Some? <==> HasUsername(users, username)
      ensures r.Some? ==> r.value.username == username && r.value.id in users && users[r.value.id] == r.value
    {
      if exists id | id in users :: users[id].username == username then
        var id :| id in users && users[id].username == username;
        Some(users[id])
      else
        None
    }

    /** Every row exactly once; the scan goes over the generated ids in ascending order. */
    method FindAll() returns (all: seq<User>)
      requires Valid()
      ensures forall i :: 0 <= i < |all| ==> all[i].id in users && users[all[i].id] == all[i]
      ensures forall id :: id in users ==> exists i :: 0 <= i < |all| && all[i].id == id
      ensures forall i, j :: 0 <= i < j < |all| ==> all[i].id < all[j].id
    {
      all := [];
      for id := 1 to nextId
        invariant forall i :: 0 <= i < |all| ==> all[i].id in users && users[all[i].id] == all[i] && all[i].id < id
        invariant IdsOf(all) == set k | k in users && k < id
        invariant forall i, j :: 0 <= i < j < |all| ==> all[i].id < all[j].id
      {
        if id in users {
          IdsOfAppend(all, users[id]);
          all := all + [users[id]];
        }
      }
      forall id | id in users
        ensures exists i :: 0 <= i < |all| && all[i].id == id
      {
        assert id in IdsOf(all);
      }
    }

    /**
     * `save`: a row with id 0 is inserted under a freshly generated id, any
     * other row overwrites the row with its id. When the backend fails nothing
     * changes and `ok` is false.
     */
    method Save(u: User, fails: bool) returns (ok: bool)
      requires Valid()
      requires u.id == 0 || u.id in users
      modifies this
      ensures Valid()
      ensures ok == !fails
      ensures fails ==> users == old(users) && nextId == old(nextId)
      ensures !fails && u.id == 0 ==>
        old(nextId) !in old(users) && users == old(users)[old(nextId) := u.(id := old(nextId))] && nextId == old(nextId) + 1
      ensures !fails && u.id != 0 ==> users == old(users)[u.id := u] && nextId == old(nextId)
    {
      if fails {
        return false;
      }
      if u.id == 0 {
        users := users[nextId := u.(id := nextId)];
        nextId := nextId + 1;
      } else {
        users := users[u.id := u];
      }
      return true;
    }

    /** `delete`: removes the row with the entity's id; when the backend fails nothing changes. */
    method Delete(u: User, fails: bool) returns (ok: bool)
      requires Valid()
      modifies this
      ensures Valid()
      ensures ok == !fails
      ensures nextId == old(nextId)
      ensures users == if fails then old(users) else old(users) - {u.id}
    {
      if fails {
        return false;
      }
      users := users - {u.id};
      return true;
    }
  }
}
