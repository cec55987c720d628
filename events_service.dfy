/** The event service: the event listings, the listing by category, and
    category creation and deletion, which only an administrator may do. */
module Events {
  import opened Domain
  import opened Records
  import opened Queries
  import opened Persistence

  /** The body of a category-creation request. */
  datatype CategoryRequest = CategoryRequest(name: string)

  /** The condition of `findByCategoryId(c)`. */
  function InCategory(c: Id): Event -> bool {
    (e: Event) => e.category.id == Some(c)
  }

  /** `findByCategoryId(c)`: every event filed under category `c`, each once. */
  function EventsInCategory(events: map<Id, Event>, c: Id): (r: seq<Event>)
    ensures forall k :: k in events && events[k].category.id == Some(c) ==> events[k] in r
    ensures forall e :: e in r ==> e.category.id == Some(c) && e in events.Values
    ensures Injective(events) ==> Distinct(r)
  {
    var r := ValuesWhere(events, InCategory(c));
    forall k | k in events && events[k].category.id == Some(c) ensures events[k] in r {
      assert InCategory(c)(events[k]);
    }
    forall e | e in r ensures e.category.id == Some(c) {
      assert InCategory(c)(e);
    }
    r
  }

  /** When every event is filed under a stored category, a category that is
      not stored lists no events: this is what a fresh category and a deleted
      one have in common. */
  lemma UnknownCategoryIsEmpty(events: map<Id, Event>, categories: set<Id>, c: Id)
    requires forall k :: k in events ==> events[k].category.id.Some? && events[k].category.id.value in categories
    requires c !in categories
    ensures EventsInCategory(events, c) == []
  {
    CountWhere(events, InCategory(c));
    assert Matching(events, InCategory(c)) == {} by {
      forall k | k in events ensures !InCategory(c)(events[k]) {
        assert events[k].category.id.value in categories;
      }
    }
  }

  class EventsService {
    const store: Store
    /** The user id the token extractor yields for the current request. */
    const principal: Option<Id>

    constructor (store: Store, principal: Option<Id>)
      ensures this.store == store && this.principal == principal
    {
      this.store := store;
      this.principal := principal;
    }

    /** `findAllEvents`: every stored event once, each with a response view. */
    function FindAllEvents(): (r: seq<Event>)
      reads store
      requires store.Valid()
      ensures Distinct(r)
      ensures forall k :: k in store.events ==> store.events[k] in r
      ensures forall e :: e in r ==> e in store.events.Values && ToResponse(e).Ok?
    {
      ValuesWhereInherit(store.events, All, (e: Event) => ToResponse(e).Ok?);
      ValuesWhere(store.events, All)
    }

    /** `findAllEventsOrderedByName`: the same events as `findAllEvents`, as
        many times each, sorted by name. */
    function FindAllEventsOrderedByName(): (r: seq<Event>)
      reads store
      requires store.Valid()
      ensures SortedBy(r, EventName)
      ensures multiset(r) == multiset(FindAllEvents())
      ensures Distinct(r)
      ensures forall k :: k in store.events ==> store.events[k] in r
      ensures forall e :: e in r ==> e in store.events.Values && ToResponse(e).Ok?
    {
      var all := FindAllEvents();
      var r := SortBy(all, EventName);
      assert forall e :: e in r <==> e in all by {
        forall e ensures e in r <==> e in all {
          assert e in r <==> e in multiset(r);
          assert e in all <==> e in multiset(all);
        }
      }
      r
    }

    /** `findEventsByCategory`: every event filed under `c`, each once; none
        when no category `c` is stored. */
    function FindEventsByCategory(c: Id): (r: seq<Event>)
      reads store
      requires store.Valid()
      ensures Distinct(r)
      ensures forall k :: k in store.events && store.events[k].category.id == Some(c) ==> store.events[k] in r
      ensures forall e :: e in r ==> e.category.id == Some(c) && e in store.events.Values
      ensures c !in store.categories ==> r == []
    {
      var r := EventsInCategory(store.events, c);
      assert c !in store.categories ==> r == [] by {
        if c !in store.categories {
          UnknownCategoryIsEmpty(store.events, store.categories.Keys, c);
        }
      }
      r
    }

    /** `findAllCategories`: every stored category once. */
    function FindAllCategories(): (r: seq<Category>)
      reads store
      requires store.Valid()
      ensures Distinct(r)
      ensures forall k :: k in store.categories ==> store.categories[k] in r
      ensures forall c :: c in r ==> c in store.categories.Values
    {
      ValuesWhere(store.categories, All)
    }

    /** `createCategory`: fails when no user is authenticated; null when the
        authenticated user is not stored; fails unless that user holds ADMIN;
        otherwise stores a new category with the request's name under a fresh
        id, with no events filed under it. */
    method CreateCategory(req: CategoryRequest) returns (r: Result<Option<Category>>)
      requires store.Valid()
      modifies store
      ensures store.Valid()
      ensures principal.None? ==> r == Err(IllegalState(NOT_AUTHENTICATED)) && unchanged(store)
      ensures principal.Some? && principal.value !in old(store.users) ==> r == Ok(None) && unchanged(store)
      ensures principal.Some? && principal.value in old(store.users) && !HasAdminRole(old(store.users)[principal.value]) ==>
        r == Err(IllegalState(NOT_ACCEPTED)) && unchanged(store)
      ensures principal.Some? && principal.value in old(store.users) && HasAdminRole(old(store.users)[principal.value]) ==>
        && r == Ok(Some(Category(Some(old(store.nextId)), req.name)))
        && old(store.nextId) !in old(store.categories)
        && store.categories == old(store.categories)[old(store.nextId) := r.value.value]
        && store.users == old(store.users) && store.roles == old(store.roles) && store.events == old(store.events)
        && FindEventsByCategory(old(store.nextId)) == []
    {
      var caller := UserIdFromToken(principal);
      if caller.Err? {
        return Err(caller.error);
      }
      var currentUser := Get(store.users, caller.value);
      if currentUser.None? {
        return Ok(None);
      }
      if !HasAdminRole(currentUser.value) {
        return Err(IllegalState(NOT_ACCEPTED));
      }
      UnknownCategoryIsEmpty(store.events, store.categories.Keys, store.nextId);
      var saved := store.SaveCategory(Category(None, req.name));
      return Ok(Some(saved));
    }

    /** `deleteCategory`: fails when no user is authenticated; null when the
        authenticated user is not stored; fails unless that user holds ADMIN;
        fails when no category `id` is stored; otherwise removes the category
        and, by the cascade, exactly the events filed under it. */
    method DeleteCategory(id: Id) returns (r: Result<Option<()>>)
      requires store.Valid()
      modifies store
      ensures store.Valid()
      ensures principal.None? ==> r == Err(IllegalState(NOT_AUTHENTICATED)) && unchanged(store)
      ensures principal.Some? && principal.value !in old(store.users) ==> r == Ok(None) && unchanged(store)
      ensures principal.Some? && principal.value in old(store.users) && !HasAdminRole(old(store.users)[principal.value]) ==>
        r == Err(IllegalState(NOT_ACCEPTED)) && unchanged(store)
      ensures (principal.Some? && principal.value in old(store.users) && HasAdminRole(old(store.users)[principal.value])
        && id !in old(store.categories)) ==>
        r == Err(IllegalState(CATEGORY_MISSING_ON_DELETE)) && unchanged(store)
      ensures (principal.Some? && principal.value in old(store.users) && HasAdminRole(old(store.users)[principal.value])
        && id in old(store.categories)) ==>
        && r == Ok(Some(()))
        && store.categories == old(store.categories) - {id}
        && (forall k :: k in store.events <==> k in old(store.events) && old(store.events)[k].category.id != Some(id))
        && (forall k :: k in store.events ==> store.events[k] == old(store.events)[k])
        && store.users == old(store.users) && store.roles == old(store.roles) && store.nextId == old(store.nextId)
        && FindEventsByCategory(id) == []
    {
      var caller := UserIdFromToken(principal);
      if caller.Err? {
        return Err(caller.error);
      }
      var currentUser := Get(store.users, caller.value);
      if currentUser.None? {
        return Ok(None);
      }
      if !HasAdminRole(currentUser.value) {
        return Err(IllegalState(NOT_ACCEPTED));
      }
      var category := Get(store.categories, id);
      if category.None? {
        return Err(IllegalState(CATEGORY_MISSING_ON_DELETE));
      }
      store.DeleteCategory(id);
      UnknownCategoryIsEmpty(store.events, store.categories.Keys, id);
      return Ok(Some(()));
    }
  }
}
