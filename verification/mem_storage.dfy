/**
 The server's in-memory store (server/storage.ts): users keyed by a counter that
 starts at 1, and gradients keyed by their own id, each kept in a Map so that
 listings come out in first-insertion order.
 */
module MemStorage {
  import opened Js
  import opened GradientModel
  import opened JsMap

  datatype InsertUser = InsertUser(username: string, password: string)

  datatype User = User(id: int, username: string, password: string)

  datatype Storage = Storage(
    users: OrderedMap<int, User>,
    gradients: OrderedMap<string, Gradient>,
    currentId: int)

  /** The constructor: both maps empty, the counter at 1. */
  function Empty(): (st: Storage)
    ensures Valid(st)
  {
    Storage(Clear(), Clear(), 1)
  }

  /** What every operation keeps: distinct keys, each user stored under its own id below
      the counter and listed in the order of the ids, each gradient stored under its own
      non-empty id. */
  predicate Valid(st: Storage)
  {
    && JsMap.Valid(st.users)
    && JsMap.Valid(st.gradients)
    && 1 <= st.currentId
    && (forall i :: 0 <= i < |st.users.entries| ==>
          st.users.entries[i].1.id == st.users.entries[i].0 < st.currentId)
    && (forall i, j :: 0 <= i < j < |st.users.entries| ==> st.users.entries[i].0 < st.users.entries[j].0)
    && (forall i :: 0 <= i < |st.gradients.entries| ==>
          st.gradients.entries[i].0 != "" && st.gradients.entries[i].1.id == Some(st.gradients.entries[i].0))
  }

  // ---------------------------------------------------------------------
  // Users

  function GetUser(st: Storage, id: int): Option<User>
  {
    Get(st.users, id)
  }

  /** The position of the first user, in insertion order, with this name. */
  function FirstNamed(users: seq<User>, name: string): (r: Option<nat>)
    ensures r.Some? ==> r.value < |users| && users[r.value].username == name
    ensures r.Some? ==> forall j :: 0 <= j < r.value ==> users[j].username != name
    ensures r.None? ==> forall j :: 0 <= j < |users| ==> users[j].username != name
  {
    if |users| == 0 then None
    else if users[0].username == name then Some(0)
    else
      match FirstNamed(users[1..], name)
      case None => None
      case Some(i) => Some(i + 1)
  }

  /** getUserByUsername: `find` over the users in insertion order. */
  function GetUserByUsername(st: Storage, name: string): Option<User>
  {
    var users := Values(st.users);
    match FirstNamed(users, name)
    case None => None
    case Some(i) => Some(users[i])
  }

  /** The user found by name is a stored user with that name, the first one created;
      none is found exactly when no stored user has the name. */
  lemma ByUsernameSpec(st: Storage, name: string)
    requires Valid(st)
    ensures var r := GetUserByUsername(st, name);
            && (r.Some? ==> r.value.username == name && GetUser(st, r.value.id) == r)
            && (r.Some? ==> forall i :: 0 <= i < |st.users.entries| && st.users.entries[i].1.username == name ==>
                              r.value.id <= st.users.entries[i].0)
            && (r.None? <==> forall i :: 0 <= i < |st.users.entries| ==> st.users.entries[i].1.username != name)
  {
    match FirstNamed(Values(st.users), name)
    case None =>
    case Some(i) =>
      ValuesInKeyOrder(st.users, i);
  }

  /** createUser: the user gets the counter as its id and the counter moves on. */
  function CreateUser(st: Storage, u: InsertUser): (Storage, User)
  {
    var user := User(st.currentId, u.username, u.password);
    (st.(users := Set(st.users, user.id, user), currentId := st.currentId + 1), user)
  }

  /** A created user has a fresh id, the old counter, and is found under it; the counter
      grows by one and nothing else changes. */
  lemma CreateUserSpec(st: Storage, u: InsertUser)
    requires Valid(st)
    ensures var (next, user) := CreateUser(st, u);
            && Valid(next)
            && user.id == st.currentId && next.currentId == st.currentId + 1
            && user.username == u.username && user.password == u.password
            && GetUser(st, user.id).None?
            && GetUser(next, user.id) == Some(user)
            && (forall id :: id != user.id ==> GetUser(next, id) == GetUser(st, id))
            && next.gradients == st.gradients
  {
    var (next, user) := CreateUser(st, u);
    assert !Has(st.users, user.id);
    assert next.users == OrderedMap(st.users.entries + [(user.id, user)]);
    forall id | id != user.id
      ensures GetUser(next, id) == GetUser(st, id)
    {
      GetSet(st.users, user.id, user, id);
    }
    GetSet(st.users, user.id, user, user.id);
    CreateUserValid(st, u);
  }

  lemma CreateUserValid(st: Storage, u: InsertUser)
    requires Valid(st)
    ensures Valid(CreateUser(st, u).0)
  {
    var (next, user) := CreateUser(st, u);
    assert !Has(st.users, user.id);
    assert next.users == OrderedMap(st.users.entries + [(user.id, user)]);
  }

  /** The ids of users created one after another. */
  function CreateAll(st: Storage, us: seq<InsertUser>): (r: (Storage, seq<int>))
    ensures |r.1| == |us|
    ensures r.0.currentId == st.currentId + |us|
    ensures forall i :: 0 <= i < |us| ==> r.1[i] == st.currentId + i
    decreases |us|
  {
    if |us| == 0 then (st, [])
    else
      var (next, user) := CreateUser(st, us[0]);
      var (last, ids) := CreateAll(next, us[1..]);
      (last, [user.id] + ids)
  }

  /** Users created one after another get strictly increasing ids. */
  lemma IdsIncrease(st: Storage, us: seq<InsertUser>)
    ensures var ids := CreateAll(st, us).1; forall i, j :: 0 <= i < j < |ids| ==> ids[i] < ids[j]
  {
  }

  // ---------------------------------------------------------------------
  // Gradients

  /** saveGradient: an error when the id is missing or empty (a falsy id), otherwise the
      gradient is stored under its id and returned. */
  function SaveGradient(st: Storage, g: Gradient): Result<(Storage, Gradient)>
  {
    if g.id.None? || g.id.value == "" then Err("Gradient must have an ID")
    else Ok((st.(gradients := Set(st.gradients, g.id.value, g)), g))
  }

  function GetGradient(st: Storage, id: string): Option<Gradient>
  {
    Get(st.gradients, id)
  }

  function GetAllGradients(st: Storage): seq<Gradient>
  {
    Values(st.gradients)
  }

  /** deleteGradient: whether there was such a gradient. */
  function DeleteGradient(st: Storage, id: string): (Storage, bool)
  {
    var (gradients, found) := Delete(st.gradients, id);
    (st.(gradients := gradients), found)
  }

  function DeleteAllGradients(st: Storage): Storage
  {
    st.(gradients := Clear())
  }

  /** A save fails exactly when the gradient has no id or an empty one. */
  lemma SaveFails(st: Storage, g: Gradient)
    ensures SaveGradient(st, g).Err? <==> g.id.None? || g.id.value == ""
  {
  }

  /** A successful save returns the gradient, keeps the store valid, makes its id read it
      back and leaves every other id and the users as they were. */
  lemma SaveThenGet(st: Storage, g: Gradient, other: string)
    requires Valid(st) && SaveGradient(st, g).Ok?
    ensures var (next, saved) := SaveGradient(st, g).value;
            && saved == g
            && Valid(next)
            && GetGradient(next, g.id.value) == Some(g)
            && (other != g.id.value ==> GetGradient(next, other) == GetGradient(st, other))
            && next.users == st.users && next.currentId == st.currentId
  {
    var id := g.id.value;
    GetSet(st.gradients, id, g, other);
    SetValid(st.gradients, id, g);
    SavedEntries(st.gradients, id, g);
  }

  /** Every gradient stored under its own non-empty id, after storing g under its id. */
  lemma SavedEntries(m: OrderedMap<string, Gradient>, id: string, g: Gradient)
    requires id != "" && g.id == Some(id)
    requires forall i :: 0 <= i < |m.entries| ==> m.entries[i].0 != "" && m.entries[i].1.id == Some(m.entries[i].0)
    ensures var n := Set(m, id, g);
            forall i :: 0 <= i < |n.entries| ==> n.entries[i].0 != "" && n.entries[i].1.id == Some(n.entries[i].0)
  {
  }

  /** Re-saving an id keeps its place in the listing; a new id is listed last. */
  lemma SavePosition(st: Storage, g: Gradient)
    requires SaveGradient(st, g).Ok?
    ensures var next := SaveGradient(st, g).value.0;
            var id := g.id.value;
            && (Has(st.gradients, id) ==>
                  Keys(next.gradients) == Keys(st.gradients)
                  && GetAllGradients(next) == GetAllGradients(st)[IndexOf(st.gradients.entries, id).value := g])
            && (!Has(st.gradients, id) ==>
                  Keys(next.gradients) == Keys(st.gradients) + [id]
                  && GetAllGradients(next) == GetAllGradients(st) + [g])
  {
    SetKeys(st.gradients, g.id.value, g);
  }

  /** Saving the same gradient twice is the same as saving it once. */
  lemma SaveIdempotent(st: Storage, g: Gradient)
    requires SaveGradient(st, g).Ok?
    ensures var next := SaveGradient(st, g).value.0;
            SaveGradient(next, g) == Ok((next, g))
  {
    SetIdempotent(st.gradients, g.id.value, g);
  }

  /** Delete answers whether the id was stored; afterwards it is not, every other id reads
      as before and the store stays valid. */
  lemma DeleteGradientSpec(st: Storage, id: string, other: string)
    requires Valid(st)
    ensures var (next, found) := DeleteGradient(st, id);
            && found == GetGradient(st, id).Some?
            && GetGradient(next, id).None?
            && (other != id ==> GetGradient(next, other) == GetGradient(st, other))
            && Valid(next)
            && next.users == st.users
  {
    DeleteSpec(st.gradients, id, other);
    var (n, found) := Delete(st.gradients, id);
    if found {
      var i := IndexOf(st.gradients.entries, id).value;
      assert n.entries == Without(st.gradients.entries, i);
    }
  }

  /** After deleting everything, nothing is listed and no id reads a gradient. */
  lemma DeleteAllEmpty(st: Storage, id: string)
    requires Valid(st)
    ensures GetAllGradients(DeleteAllGradients(st)) == []
    ensures GetGradient(DeleteAllGradients(st), id).None?
    ensures Valid(DeleteAllGradients(st))
  {
  }

  /** The listing is every stored gradient once, in the order their ids were first
      saved: the i-th listed gradient is what its id reads. */
  lemma ListingMatchesIds(st: Storage, i: nat)
    requires Valid(st) && i < |GetAllGradients(st)|
    ensures GetAllGradients(st)[i].id.Some?
    ensures GetGradient(st, GetAllGradients(st)[i].id.value) == Some(GetAllGradients(st)[i])
  {
    ValuesInKeyOrder(st.gradients, i);
  }
}
