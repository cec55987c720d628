/** The repositories both services share (users, roles, events,
    categories), as one store of tables keyed by id. */
module Persistence {
  import opened Domain
  import opened Records
  import opened Queries

  class Store {
    /** The users table. */
    var users: map<Id, User>
    /** The names present in the roles table. */
    var roles: set<string>
    /** The events table. */
    var events: map<Id, Event>
    /** The categories table. */
    var categories: map<Id, Category>
    /** The next id the generator hands out; ids are positive and never reused. */
    var nextId: Id

    /** Every row carries its own key as id, below the next id to hand out;
        every stored event has a creator with an id and a category that is
        still stored (deleting a category cascades to its events). */
    ghost predicate Valid()
      reads this
      ensures Valid() ==> Injective(users) && Injective(events) && Injective(categories)
    {
      && 0 < nextId
      && (forall k :: k in users ==> 0 < k < nextId && users[k].id == Some(k))
      && (forall k :: k in categories ==> 0 < k < nextId && categories[k].id == Some(k))
      && (forall k :: k in events ==> 0 < k < nextId && events[k].id == Some(k) && Filed(events[k]))
    }

    /** The references of `e` are ones a stored event may hold. */
    ghost predicate Filed(e: Event)
      reads this
    {
      e.creator.id.Some? && e.category.id.Some? && e.category.id.value in categories
    }

    constructor (roles: set<string>)
      ensures Valid()
      ensures users == map[] && events == map[] && categories == map[] && this.roles == roles
    {
      users, events, categories := map[], map[], map[];
      this.roles := roles;
      nextId := 1;
    }

    /** `save` of a new user: the record gets the next id. */
    method SaveUser(u: User) returns (saved: User)
      requires Valid() && u.id.None?
      modifies this
      ensures Valid()
      ensures saved == u.(id := Some(old(nextId))) && old(nextId) !in old(users)
      ensures users == old(users)[old(nextId) := saved]
      ensures roles == old(roles) && events == old(events) && categories == old(categories)
    {
      saved := u.(id := Some(nextId));
      users := users[nextId := saved];
      nextId := nextId + 1;
    }

    /** `save` of a new event: the record gets the next id. */
    method SaveEvent(e: Event) returns (saved: Event)
      requires Valid() && e.id.None? && Filed(e)
      modifies this
      ensures Valid()
      ensures saved == e.(id := Some(old(nextId))) && old(nextId) !in old(events)
      ensures events == old(events)[old(nextId) := saved]
      ensures users == old(users) && roles == old(roles) && categories == old(categories)
    {
      saved := e.(id := Some(nextId));
      events := events[nextId := saved];
      nextId := nextId + 1;
    }

    /** `save` of a new category: the record gets the next id. */
    method SaveCategory(c: Category) returns (saved: Category)
      requires Valid() && c.id.None?
      modifies this
      ensures Valid()
      ensures saved == c.(id := Some(old(nextId))) && old(nextId) !in old(categories)
      ensures categories == old(categories)[old(nextId) := saved]
      ensures users == old(users) && roles == old(roles) && events == old(events)
    {
      saved := c.(id := Some(nextId));
      categories := categories[nextId := saved];
      nextId := nextId + 1;
    }

    /** `delete` of a stored user. */
    method DeleteUser(id: Id)
      requires Valid() && id in users
      modifies this
      ensures Valid()
      ensures users == old(users) - {id}
      ensures roles == old(roles) && events == old(events) && categories == old(categories) && nextId == old(nextId)
    {
      users := users - {id};
    }

    /** `deleteById` of a stored event. */
    method DeleteEvent(id: Id)
      requires Valid() && id in events
      modifies this
      ensures Valid()
      ensures events == old(events) - {id}
      ensures users == old(users) && roles == old(roles) && categories == old(categories) && nextId == old(nextId)
    {
      events := events - {id};
    }

    /** `delete` of a stored category; the cascade on its event list removes
        the events filed under it as well. */
    method DeleteCategory(id: Id)
      requires Valid() && id in categories
      modifies this
      ensures Valid()
      ensures categories == old(categories) - {id}
      ensures events == map k | k in old(events) && old(events)[k].category.id != Some(id) :: old(events)[k]
      ensures users == old(users) && roles == old(roles) && nextId == old(nextId)
    {
      categories := categories - {id};
      events := map k | k in events && events[k].category.id != Some(id) :: events[k];
    }
  }
}
