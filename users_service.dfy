/** The user service: user creation, login, deletion guarded by the
    last-administrator rule, and the event operations with their ownership
    rules. */
module Users {
  import opened Domain
  import opened Records
  import opened Queries
  import opened Persistence

  /** The condition of `findAllByRole(role)`. */
  function HoldsRole(role: string): User -> bool {
    (u: User) => role in u.roles
  }

  /** `findAllByRole(role)`: every user holding `role`, each once. */
  function UsersWithRole(users: map<Id, User>, role: string): (r: seq<User>)
    ensures forall k :: k in users && role in users[k].roles ==> users[k] in r
    ensures forall u :: u in r ==> role in u.roles && u in users.Values
    ensures Injective(users) ==> Distinct(r)
  {
    var r := ValuesWhere(users, HoldsRole(role));
    forall k | k in users && role in users[k].roles ensures users[k] in r {
      assert HoldsRole(role)(users[k]);
    }
    forall u | u in r ensures role in u.roles {
      assert HoldsRole(role)(u);
    }
    r
  }

  /** The ids of the users holding ADMIN. */
  ghost function AdminIds(users: map<Id, User>): set<Id> {
    set k | k in users && HasAdminRole(users[k])
  }

  /** `findAllByRole("ADMIN").size`, the count the deletion guard reads: the
      number of stored users holding ADMIN. */
  function AdminCount(users: map<Id, User>): (r: nat)
    ensures r == |AdminIds(users)|
  {
    var r := |UsersWithRole(users, ADMIN)|;
    CountWhere(users, HoldsRole(ADMIN));
    assert Matching(users, HoldsRole(ADMIN)) == AdminIds(users) by {
      forall k ensures k in Matching(users, HoldsRole(ADMIN)) <==> k in AdminIds(users) {
        assert k in users ==> (HoldsRole(ADMIN)(users[k]) <==> HasAdminRole(users[k]));
      }
    }
    r
  }

  /** For a target that holds ADMIN, the guard `count == 1` holds exactly when
      no other user holds ADMIN: it refuses the last administrator and only it. */
  lemma LastAdminGuardIsExact(users: map<Id, User>, id: Id)
    requires id in users && HasAdminRole(users[id])
    ensures AdminCount(users) == 1 <==> forall k :: k in users && HasAdminRole(users[k]) ==> k == id
  {
    var admins := AdminIds(users);
    assert id in admins;
    assert |admins - {id}| == |admins| - 1;
    assert forall k :: k in admins ==> k == id || k in admins - {id};
    if forall k :: k in users && HasAdminRole(users[k]) ==> k == id {
      assert forall k :: k in admins - {id} <==> k in {};
    }
  }

  /** Removing a user removes its id, and only its id, from the admin ids. */
  lemma AdminIdsAfterDelete(users: map<Id, User>, id: Id)
    ensures AdminIds(users - {id}) == AdminIds(users) - {id}
  {
    forall k ensures k in AdminIds(users - {id}) <==> k in AdminIds(users) - {id} {
      if k in users && k != id {
        assert (users - {id})[k] == users[k];
      }
    }
  }

  /** A deletion the guard lets through never removes the last administrator:
      if some user holds ADMIN before, some user holds ADMIN after. */
  lemma DeleteKeepsAnAdmin(users: map<Id, User>, id: Id)
    requires id in users
    requires AdminCount(users) >= 1
    requires !(HasAdminRole(users[id]) && AdminCount(users) == 1)
    ensures AdminCount(users - {id}) >= 1
  {
    AdminIdsAfterDelete(users, id);
    assert HasAdminRole(users[id]) <==> id in AdminIds(users);
    RemoveKeepsOne(AdminIds(users), id);
  }

  lemma RemoveKeepsOne(s: set<Id>, id: Id)
    requires |s| >= 1 && !(id in s && |s| == 1)
    ensures |s - {id}| >= 1
  {
    if id in s {
      assert |s - {id}| == |s| - 1;
    } else {
      assert s - {id} == s;
    }
  }

  /** The event-deletion guard as written: a caller who is not the event's
      creator, or who does not hold ADMIN, is refused; so deletion goes ahead
      only for a creator who also holds ADMIN. */
  predicate MayDeleteEvent(e: Event, caller: User)
    ensures MayDeleteEvent(e, caller) <==> e.creator.id == caller.id && ADMIN in caller.roles
  {
    !(e.creator.id != caller.id || !HasAdminRole(caller))
  }

  /** The condition of `findByEmail(email)`. */
  function HasEmail(email: string): User -> bool {
    (u: User) => u.email == email
  }

  /** The ids of the users with the given email. */
  ghost function EmailIds(users: map<Id, User>, email: string): set<Id> {
    set k | k in users && users[k].email == email
  }

  /** The condition of `findByCreatorId(id)`. */
  function CreatedBy(id: Id): Event -> bool {
    (e: Event) => e.creator.id == Some(id)
  }

  /** The keys the email query lists are exactly the ids with that email. */
  lemma EmailKeys(users: map<Id, User>, email: string)
    ensures forall k :: k in KeysWhere(users, HasEmail(email)) <==> k in EmailIds(users, email)
    ensures |KeysWhere(users, HasEmail(email))| == |EmailIds(users, email)|
  {
    CountKeys(users, HasEmail(email));
    assert Matching(users, HasEmail(email)) == EmailIds(users, email) by {
      forall k ensures k in Matching(users, HasEmail(email)) <==> k in EmailIds(users, email) {
        assert k in users ==> (HasEmail(email)(users[k]) <==> users[k].email == email);
      }
    }
  }

  /** A one-element sequence lists exactly the singleton of its element. */
  lemma SingleKey(ks: seq<Id>, keys: set<Id>)
    requires |ks| == 1
    requires forall k :: k in ks <==> k in keys
    ensures keys == {ks[0]}
  {
    forall j ensures j in keys <==> j == ks[0] {
      assert j in ks <==> j == ks[0];
    }
  }

  /** `findByEmail(email)`, a query for at most one row: the id of the one
      user with the email, null when there is none, and a failure when there
      are several. */
  function FindByEmail(users: map<Id, User>, email: string): (r: Result<Option<Id>>)
    ensures r.Err? <==> |EmailIds(users, email)| > 1
    ensures r.Err? ==> r.error == NonUniqueResult
    ensures r == Ok(None) <==> EmailIds(users, email) == {}
    ensures r.Ok? && r.value.Some? ==> r.value.value in users && EmailIds(users, email) == {r.value.value}
  {
    var ks := KeysWhere(users, HasEmail(email));
    EmailKeys(users, email);
    if |ks| > 1 then
      Err(NonUniqueResult)
    else if |ks| == 0 then
      Ok(None)
    else
      SingleKey(ks, EmailIds(users, email));
      Ok(Some(ks[0]))
  }

  class UsersService {
    const store: Store
    /** The user id the token extractor yields for the current request. */
    const principal: Option<Id>

    constructor (store: Store, principal: Option<Id>)
      ensures this.store == store && this.principal == principal
    {
      this.store := store;
      this.principal := principal;
    }

    /** `save`: a new user with the request's fields and exactly the USER
        role, stored under a fresh id. A null field fails first; a missing
        USER role fails next; neither stores anything. */
    method Save(req: UserRequest) returns (r: Result<User>)
      requires store.Valid()
      modifies store
      ensures store.Valid()
      ensures req.email.None? || req.password.None? || req.name.None? ==>
        r == Err(NullDereference) && unchanged(store)
      ensures req.email.Some? && req.password.Some? && req.name.Some? && USER !in old(store.roles) ==>
        r == Err(IllegalState(USER_ROLE_MISSING)) && unchanged(store)
      ensures req.email.Some? && req.password.Some? && req.name.Some? && USER in old(store.roles) ==>
        && r == Ok(User(Some(old(store.nextId)), req.email.value, req.password.value, req.name.value, {USER}))
        && old(store.nextId) !in old(store.users)
        && store.users == old(store.users)[old(store.nextId) := r.value]
        && store.roles == old(store.roles) && store.events == old(store.events)
        && store.categories == old(store.categories)
    {
      if req.email.None? || req.password.None? || req.name.None? {
        return Err(NullDereference);
      }
      var user := User(None, req.email.value, req.password.value, req.name.value, {});
      if USER !in store.roles {
        return Err(IllegalState(USER_ROLE_MISSING));
      }
      user := user.(roles := user.roles + {USER});
      assert user.roles == {USER};
      var saved := store.SaveUser(user);
      return Ok(saved);
    }

    /** `getById`: the user stored under `id`, or null. */
    function GetById(id: Id): (r: Option<User>)
      reads store
      requires store.Valid()
      ensures r.Some? <==> id in store.users
      ensures r.Some? ==> r.value == store.users[id] && r.value.id == Some(id)
    {
      Get(store.users, id)
    }

    /** `findAll`: with no role, every user once, sorted by name; with a role,
        every user holding it, once each. */
    function FindAll(role: Option<string>): (r: seq<User>)
      reads store
      requires store.Valid()
      ensures Distinct(r)
      ensures forall k :: k in store.users && (role.Some? ==> role.value in store.users[k].roles) ==>
        store.users[k] in r
      ensures forall u :: u in r ==>
        (role.Some? ==> role.value in u.roles) && u in store.users.Values
      ensures role.None? ==> SortedBy(r, UserName)
    {
      match role
      case None =>
        var all := ValuesWhere(store.users, All);
        var r := SortBy(all, UserName);
        assert forall u :: u in r <==> u in all by {
          forall u ensures u in r <==> u in all {
            assert u in r <==> u in multiset(r);
            assert u in all <==> u in multiset(all);
          }
        }
        r
      case Some(name) =>
        UsersWithRole(store.users, name)
    }

    /** `login`: the `!!` failure for a null email; the lookup's failure when
        several users share the email; null when no user has it or the stored
        password differs from the given one (compared as plain text);
        otherwise a token for that user's id together with the user. */
    function Login(credentials: LoginRequest): (r: Result<Option<LoginResponse>>)
      reads store
      requires store.Valid()
      ensures credentials.email.None? ==> r == Err(NullDereference)
      ensures credentials.email.Some? && |EmailIds(store.users, credentials.email.value)| > 1 ==>
        r == Err(NonUniqueResult)
      ensures credentials.email.Some? && EmailIds(store.users, credentials.email.value) == {} ==>
        r == Ok(None)
      ensures forall k :: k in store.users && credentials.email.Some? && EmailIds(store.users, credentials.email.value) == {k} ==>
        r == (if Some(store.users[k].password) == credentials.password
              then Ok(Some(LoginResponse(Token(k), store.users[k])))
              else Ok(None))
    {
      if credentials.email.None? then
        Err(NullDereference)
      else
        var found := FindByEmail(store.users, credentials.email.value);
        if found.Err? then
          Err(found.error)
        else if found.value.None? then
          Ok(None)
        else
          var k := found.value.value;
          var user := store.users[k];
          if Some(user.password) != credentials.password then
            Ok(None)
          else
            Ok(Some(LoginResponse(Token(k), user)))
    }

    /** `delete`: false for an unknown id; refuses to remove a user holding
        ADMIN while the ADMIN query counts exactly one user; otherwise removes
        exactly that user. A store with an administrator keeps one. */
    method Delete(id: Id) returns (r: Result<bool>)
      requires store.Valid()
      modifies store
      ensures store.Valid()
      ensures id !in old(store.users) ==> r == Ok(false) && unchanged(store)
      ensures id in old(store.users) && HasAdminRole(old(store.users)[id]) && AdminCount(old(store.users)) == 1 ==>
        r == Err(BadRequest(LAST_ADMIN)) && unchanged(store)
      ensures id in old(store.users) && !(HasAdminRole(old(store.users)[id]) && AdminCount(old(store.users)) == 1) ==>
        && r == Ok(true)
        && store.users == old(store.users) - {id}
        && store.roles == old(store.roles) && store.events == old(store.events)
        && store.categories == old(store.categories) && store.nextId == old(store.nextId)
      ensures AdminCount(old(store.users)) >= 1 ==> AdminCount(store.users) >= 1
    {
      var found := GetById(id);
      if found.None? {
        return Ok(false);
      }
      var user := found.value;
      if HasAdminRole(user) {
        var count := |UsersWithRole(store.users, ADMIN)|;
        if count == 1 {
          return Err(BadRequest(LAST_ADMIN));
        }
      }
      if AdminCount(store.users) >= 1 {
        DeleteKeepsAnAdmin(store.users, id);
      }
      store.DeleteUser(id);
      return Ok(true);
    }

    // ---- Events ----

    /** `findEventById`: the event stored under `id`, or null; a stored
        event always has a response view. */
    function FindEventById(id: Id): (r: Option<Event>)
      reads store
      requires store.Valid()
      ensures r.Some? <==> id in store.events
      ensures r.Some? ==> r.value == store.events[id] && r.value.id == Some(id) && ToResponse(r.value).Ok?
    {
      Get(store.events, id)
    }

    /** `getCategoryById`: the category stored under `id`, or null. */
    function GetCategoryById(id: Id): (r: Option<Category>)
      reads store
      requires store.Valid()
      ensures r.Some? <==> id in store.categories
      ensures r.Some? ==> r.value == store.categories[id] && r.value.id == Some(id)
    {
      Get(store.categories, id)
    }

    /** `saveEvent`: fails when the creator is missing, then when the
        category is missing; otherwise stores one new event carrying the
        request's fields, creator and category, whose response view gives
        back the request. */
    method SaveEvent(req: EventRequest) returns (r: Result<Event>)
      requires store.Valid()
      modifies store
      ensures store.Valid()
      ensures req.creatorId !in old(store.users) ==>
        r == Err(IllegalState(USER_MISSING)) && unchanged(store)
      ensures req.creatorId in old(store.users) && req.categoryId !in old(store.categories) ==>
        r == Err(IllegalState(CATEGORY_MISSING)) && unchanged(store)
      ensures req.creatorId in old(store.users) && req.categoryId in old(store.categories) ==>
        && r.Ok?
        && r.value == NewEvent(req, old(store.users)[req.creatorId], old(store.categories)[req.categoryId])
                        .(id := Some(old(store.nextId)))
        && ToResponse(r.value) ==
             Ok(EventResponse(Some(old(store.nextId)), req.name, req.local, req.hour, req.description,
                              req.creatorId, req.categoryId))
        && old(store.nextId) !in old(store.events)
        && store.events == old(store.events)[old(store.nextId) := r.value]
        && store.users == old(store.users) && store.roles == old(store.roles)
        && store.categories == old(store.categories)
    {
      var user := GetById(req.creatorId);
      if user.None? {
        return Err(IllegalState(USER_MISSING));
      }
      var category := GetCategoryById(req.categoryId);
      if category.None? {
        return Err(IllegalState(CATEGORY_MISSING));
      }
      var saved := store.SaveEvent(NewEvent(req, user.value, category.value));
      return Ok(saved);
    }

    /** `updateEvent`: null for an unknown event; then fails when the creator
        is missing, when the category is missing, when no user is
        authenticated, and when the authenticated user is not the request's
        creator. Only then it saves, and what it saves is a NEW event built
        from the request: the event under `id` stays as it was. */
    method UpdateEvent(id: Id, req: EventRequest) returns (r: Result<Option<Event>>)
      requires store.Valid()
      modifies store
      ensures store.Valid()
      ensures id !in old(store.events) ==> r == Ok(None) && unchanged(store)
      ensures id in old(store.events) && req.creatorId !in old(store.users) ==>
        r == Err(IllegalState(USER_MISSING)) && unchanged(store)
      ensures id in old(store.events) && req.creatorId in old(store.users) && req.categoryId !in old(store.categories) ==>
        r == Err(IllegalState(CATEGORY_MISSING)) && unchanged(store)
      ensures (id in old(store.events) && req.creatorId in old(store.users) && req.categoryId in old(store.categories)
        && principal.None?) ==>
        r == Err(IllegalState(NOT_AUTHENTICATED)) && unchanged(store)
      ensures (id in old(store.events) && req.creatorId in old(store.users) && req.categoryId in old(store.categories)
        && principal.Some? && principal.value != req.creatorId) ==>
        r == Err(IllegalState(NOT_CREATOR)) && unchanged(store)
      ensures (id in old(store.events) && req.creatorId in old(store.users) && req.categoryId in old(store.categories)
        && principal == Some(req.creatorId)) ==>
        && r.Ok? && r.value.Some?
        && r.value.value == NewEvent(req, old(store.users)[req.creatorId], old(store.categories)[req.categoryId])
                              .(id := Some(old(store.nextId)))
        && old(store.nextId) != id
        && store.events == old(store.events)[old(store.nextId) := r.value.value]
        && id in store.events && store.events[id] == old(store.events)[id]
        && store.users == old(store.users) && store.roles == old(store.roles)
        && store.categories == old(store.categories)
    {
      var existing := FindEventById(id);
      if existing.None? {
        return Ok(None);
      }
      var user := GetById(req.creatorId);
      if user.None? {
        return Err(IllegalState(USER_MISSING));
      }
      var category := GetCategoryById(req.categoryId);
      if category.None? {
        return Err(IllegalState(CATEGORY_MISSING));
      }
      var caller := UserIdFromToken(principal);
      if caller.Err? {
        return Err(caller.error);
      }
      if user.value.id != Some(caller.value) {
        return Err(IllegalState(NOT_CREATOR));
      }
      var saved := store.SaveEvent(NewEvent(req, user.value, category.value));
      return Ok(Some(saved));
    }

    /** `deleteEvent`: null for an unknown event; then fails when no user is
        authenticated or the authenticated user is not stored; null unless the
        caller is the event's creator and holds ADMIN; otherwise removes
        exactly that event. */
    method DeleteEvent(id: Id) returns (r: Result<Option<bool>>)
      requires store.Valid()
      modifies store
      ensures store.Valid()
      ensures id !in old(store.events) ==> r == Ok(None) && unchanged(store)
      ensures id in old(store.events) && principal.None? ==>
        r == Err(IllegalState(NOT_AUTHENTICATED)) && unchanged(store)
      ensures id in old(store.events) && principal.Some? && principal.value !in old(store.users) ==>
        r == Err(IllegalState(USER_MISSING)) && unchanged(store)
      ensures (id in old(store.events) && principal.Some? && principal.value in old(store.users)
        && !MayDeleteEvent(old(store.events)[id], old(store.users)[principal.value])) ==>
        r == Ok(None) && unchanged(store)
      ensures (id in old(store.events) && principal.Some? && principal.value in old(store.users)
        && MayDeleteEvent(old(store.events)[id], old(store.users)[principal.value])) ==>
        && r == Ok(Some(true))
        && store.events == old(store.events) - {id}
        && store.users == old(store.users) && store.roles == old(store.roles)
        && store.categories == old(store.categories) && store.nextId == old(store.nextId)
    {
      var event := FindEventById(id);
      if event.None? {
        return Ok(None);
      }
      var caller := UserIdFromToken(principal);
      if caller.Err? {
        return Err(caller.error);
      }
      var currentUser := GetById(caller.value);
      if currentUser.None? {
        return Err(IllegalState(USER_MISSING));
      }
      if event.value.creator.id != currentUser.value.id || !HasAdminRole(currentUser.value) {
        return Ok(None);
      }
      store.DeleteEvent(id);
      return Ok(Some(true));
    }

    /** `listAllEventsFromUser`: fails for an unknown user; otherwise every
        event the user created, each once, each with a response view. */
    function ListAllEventsFromUser(id: Id): (r: Result<seq<Event>>)
      reads store
      requires store.Valid()
      ensures r.Err? <==> id !in store.users
      ensures r.Err? ==> r.error == IllegalState(USER_MISSING)
      ensures r.Ok? ==> Distinct(r.value)
      ensures r.Ok? ==> forall k :: k in store.events && store.events[k].creator.id == Some(id) ==>
        store.events[k] in r.value
      ensures r.Ok? ==> forall e :: e in r.value ==>
        e.creator.id == Some(id) && e in store.events.Values && ToResponse(e).Ok?
    {
      if GetById(id).None? then
        Err(IllegalState(USER_MISSING))
      else
        ValuesWhereInherit(store.events, CreatedBy(id), (e: Event) => ToResponse(e).Ok?);
        Ok(ValuesWhere(store.events, CreatedBy(id)))
    }
  }
}
