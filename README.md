# authserver services in Dafny

This project models the two service classes of the `authserver` Spring
application, `UsersService` and `EventsService`, together with the `Event`
record and its `toResponse` projection.

The modules are `Domain` (users, roles, outcomes, the principal), `Records`
(events, categories, `toResponse`), `Queries` (what repository queries
return), `Persistence` (the store), `Users` (class `UsersService`) and
`Events` (class `EventsService`).

The repositories both services use are one store object,
`Persistence.Store`. It holds:

- the users table, a map from id to `User` (email, password, name and a set of role names);
- the role names present in the roles table;
- the events table and the categories table, also maps from id;
- the next id to generate, which stands for `@GeneratedValue`.

Its `Valid()` invariant has three parts:

- every row carries its key as its id;
- ids are positive and below the next id;
- every stored event has a creator id and a category that is still stored.

Each service is a class over that store. It also holds the principal, the
optional user id that the token extractor yields for the current request.

The outcomes of a service call are modelled as follows:

- A Kotlin exception is `Err(IllegalState(msg))`, `Err(BadRequest(msg))` or `Err(NullDereference)` (for `!!` on null).
- A Kotlin `null` return is `Ok(None)`.
- Every state-changing operation is a method. Its postconditions name, for each guard in source order:
  - the outcome;
  - the exact new state of every table, or that nothing changed.

Repository queries are modelled as follows:

- A query over a table (`findAll`, `findAllByRole`, `findByCreatorId`, `findByCategoryId`) lists every matching row exactly once.
- `Sort.by("name")` and `ORDER BY e.name` are modelled as a stable insertion sort of the id-ordered rows by lexicographic name order. The sort is proved sorted and a permutation of the unsorted query.

Four rules are modelled exactly as the code states them:

- The last-administrator guard of `delete` refuses only a user holding `ADMIN` while the `ADMIN` query counts exactly one user. Lemmas prove two things about it:
  - the guard is exact;
  - a store with an administrator keeps one after any deletion the guard allows.
- `updateEvent` builds a record without an id. Saving it therefore inserts a new event, and the event under `id` stays as it was.
- `deleteEvent` requires the caller to be the event's creator and also to hold `ADMIN`.
- `deleteCategory` removes the category. The JPA cascade on `Category.events` also removes exactly the events filed under it. A category that is not stored, whether fresh or just deleted, lists no events.

## Model

| member | source | states |
|---|---|---|
| Domain.UserIdFromToken | authserver-main/src/main/kotlin/br/pucpr/authserver/users/UsersService.kt:30-37 | succeeds exactly when a principal is present, returning its id; otherwise fails with "User is not authenticated"; `EventsService.getUserIdFromToken` (EventsService.kt lines 22-29) has the same body |
| Domain.HasAdminRole | authserver-main/src/main/kotlin/br/pucpr/authserver/users/UsersService.kt:71 | `roles.any { it.name == "ADMIN" }` holds exactly when ADMIN is among the user's role names; the same test is at line 118 and at EventsService.kt lines 45 and 55 |
| Records.ToResponse | authserver-main/src/main/kotlin/br/pucpr/authserver/events/Event.kt:33 | defined exactly when creator and category both have ids (else the `!!` failure); keeps the id, copies name, local, hour and description, and replaces creator and category by their ids |
| Records.NewEvent | authserver-main/src/main/kotlin/br/pucpr/authserver/users/UsersService.kt:88-95 | the record built from a request has no id and the looked-up creator and category; when those are the ones the request names, its response view is the request's fields with no id (the same construction is at lines 104-111) |
| Queries.Get | authserver-main/src/main/kotlin/br/pucpr/authserver/users/UsersService.kt:53 | `findByIdOrNull`: present exactly when the key is stored, and then the stored row |
| Queries.ValuesWhere | authserver-main/src/main/kotlin/br/pucpr/authserver/events/EventsRepository.kt:9-11 | a derived query lists every matching row, only stored matching rows, and no row twice when rows are distinct |
| Queries.CountWhere | authserver-main/src/main/kotlin/br/pucpr/authserver/users/UsersService.kt:72 | the size of a query result is the number of keys whose row matches |
| Queries.SortBy | authserver-main/src/main/kotlin/br/pucpr/authserver/events/EventsRepository.kt:13-14 | the result is sorted by name, is a permutation of the input, and keeps distinct rows distinct |
| Queries.NameLeqTotal | authserver-main/src/main/kotlin/br/pucpr/authserver/events/EventsRepository.kt:13 | any two names are ordered one way or the other by the name order |
| Queries.NameLeqTransitive | authserver-main/src/main/kotlin/br/pucpr/authserver/events/EventsRepository.kt:13 | the name order is transitive |
| Persistence.Store.SaveUser | authserver-main/src/main/kotlin/br/pucpr/authserver/users/UsersService.kt:50 | inserts the user under a fresh id not in use, returns it with that id, changes no other table |
| Persistence.Store.SaveEvent | authserver-main/src/main/kotlin/br/pucpr/authserver/users/UsersService.kt:96 | inserts the event under a fresh id not in use, returns it with that id, changes no other table |
| Persistence.Store.SaveCategory | authserver-main/src/main/kotlin/br/pucpr/authserver/events/EventsService.kt:50 | inserts the category under a fresh id not in use, returns it with that id, changes no other table |
| Persistence.Store.DeleteUser | authserver-main/src/main/kotlin/br/pucpr/authserver/users/UsersService.kt:76 | removes exactly that user and keeps the store invariant |
| Persistence.Store.DeleteEvent | authserver-main/src/main/kotlin/br/pucpr/authserver/users/UsersService.kt:119 | removes exactly that event and keeps the store invariant |
| Persistence.Store.DeleteCategory | authserver-main/src/main/kotlin/br/pucpr/authserver/events/Category.kt:16 | removes the category and, by the cascade, exactly the events filed under it; keeps the store invariant |
| Users.UsersWithRole | authserver-main/src/main/kotlin/br/pucpr/authserver/users/UsersService.kt:57 | `findAllByRole`: every user holding the role, only stored users holding it, each once |
| Users.AdminCount | authserver-main/src/main/kotlin/br/pucpr/authserver/users/UsersService.kt:72 | `findAllByRole("ADMIN").size` is the number of stored users holding ADMIN |
| Users.LastAdminGuardIsExact | authserver-main/src/main/kotlin/br/pucpr/authserver/users/UsersService.kt:71-73 | for a target holding ADMIN, `count == 1` holds if and only if no other user holds ADMIN |
| Users.AdminIdsAfterDelete | authserver-main/src/main/kotlin/br/pucpr/authserver/users/UsersService.kt:76 | removing a user removes its id and only its id from the administrators |
| Users.DeleteKeepsAnAdmin | authserver-main/src/main/kotlin/br/pucpr/authserver/users/UsersService.kt:69-78 | any deletion the guard lets through leaves at least one administrator when there was one |
| Users.UsersService.Save | authserver-main/src/main/kotlin/br/pucpr/authserver/users/UsersService.kt:39-51 | null field: `!!` failure, nothing stored; USER role missing: "Role 'USER' not found!", nothing stored; else exactly one new user with the request's fields and the role set {USER}, under a fresh id |
| Users.UsersService.GetById | authserver-main/src/main/kotlin/br/pucpr/authserver/users/UsersService.kt:53 | the user stored under the id, carrying that id, or null exactly when none is |
| Users.UsersService.FindAll | authserver-main/src/main/kotlin/br/pucpr/authserver/users/UsersService.kt:55-57 | every stored user (holding the role, when one is given) exactly once and nothing else; sorted by name when no role is given |
| Users.FindByEmail | authserver-main/src/main/kotlin/br/pucpr/authserver/users/UsersService.kt:60 | the single-result email lookup: fails exactly when several users have the email, null exactly when none has it, else the one id holding it |
| Users.UsersService.Login | authserver-main/src/main/kotlin/br/pucpr/authserver/users/UsersService.kt:59-67 | null email: `!!` failure; several users with the email: the lookup fails; no user with it, or a stored password that differs from the given one: null; otherwise a token for that user's id and that user |
| Users.UsersService.Delete | authserver-main/src/main/kotlin/br/pucpr/authserver/users/UsersService.kt:69-78 | unknown id: false, nothing changed; last ADMIN: "Cannot delete the last system admin!", nothing changed; otherwise true and exactly that user removed; an administrator always remains |
| Users.UsersService.FindEventById | authserver-main/src/main/kotlin/br/pucpr/authserver/users/UsersService.kt:83 | the event stored under the id, or null exactly when none is; a stored event has a response view; `EventsService.findEventById` (EventsService.kt line 33) is the same lookup |
| Users.UsersService.GetCategoryById | authserver-main/src/main/kotlin/br/pucpr/authserver/users/UsersService.kt:131 | the category stored under the id, or null exactly when none is |
| Users.UsersService.SaveEvent | authserver-main/src/main/kotlin/br/pucpr/authserver/users/UsersService.kt:85-97 | missing creator: "User don't exist!"; then missing category: "Category don't exist!"; neither stores anything; else one new event with the request's fields, creator and category, whose response view gives back the request |
| Users.UsersService.UpdateEvent | authserver-main/src/main/kotlin/br/pucpr/authserver/users/UsersService.kt:99-113 | unknown event: null; then missing creator, missing category, no principal, principal not the request's creator, each failing with its message and nothing stored; else a new event under a fresh id, the old event untouched |
| Users.MayDeleteEvent | authserver-main/src/main/kotlin/br/pucpr/authserver/users/UsersService.kt:118 | the guard lets deletion through exactly when the caller is the event's creator and holds ADMIN |
| Users.UsersService.DeleteEvent | authserver-main/src/main/kotlin/br/pucpr/authserver/users/UsersService.kt:115-121 | unknown event: null; no principal or unknown principal: failure; caller not both creator and ADMIN: null, nothing deleted; else exactly that event removed and true |
| Users.UsersService.ListAllEventsFromUser | authserver-main/src/main/kotlin/br/pucpr/authserver/users/UsersService.kt:123-127 | unknown user: "User don't exist!"; else exactly the stored events the user created, each once, each with a response view |
| Events.EventsInCategory | authserver-main/src/main/kotlin/br/pucpr/authserver/events/EventsRepository.kt:11 | `findByCategoryId`: every stored event filed under the category, only those, each once |
| Events.UnknownCategoryIsEmpty | authserver-main/src/main/kotlin/br/pucpr/authserver/events/Category.kt:16 | when every event is filed under a stored category, a category that is not stored lists no events |
| Events.EventsService.FindAllEvents | authserver-main/src/main/kotlin/br/pucpr/authserver/events/EventsService.kt:31 | every stored event exactly once, each with a response view |
| Events.EventsService.FindAllEventsOrderedByName | authserver-main/src/main/kotlin/br/pucpr/authserver/events/EventsService.kt:35-37 | a permutation of `findAllEvents`, so every event exactly once, in non-decreasing name order |
| Events.EventsService.FindEventsByCategory | authserver-main/src/main/kotlin/br/pucpr/authserver/events/EventsService.kt:41 | exactly the events whose category id is the given one, each once; none for a category that is not stored |
| Events.EventsService.FindAllCategories | authserver-main/src/main/kotlin/br/pucpr/authserver/events/EventsService.kt:60 | every stored category exactly once |
| Events.EventsService.CreateCategory | authserver-main/src/main/kotlin/br/pucpr/authserver/events/EventsService.kt:43-51 | no principal: failure; unknown principal: null; non-admin: "Not accepted!"; none of them stores anything; else one new category with the requested name under a fresh id, with no events |
| Events.EventsService.DeleteCategory | authserver-main/src/main/kotlin/br/pucpr/authserver/events/EventsService.kt:53-58 | no principal: failure; unknown principal: null; non-admin: "Not accepted!"; unknown category: "Category don't exists!"; none changes anything; else the category and exactly its events are removed |

## Left out

- Token handling: the `Jwt` class that signs, parses and expires tokens is not part of this model.
  - A token is the value `Token(subject)`, carrying the user id.
  - The principal of a request is a parameter of each service object.
- HTTP controllers, `ResponseEntity` wrapping and the `@PreAuthorize` checks the framework enforces are not modelled.
- Logging calls are left out; they do not affect any outcome.
- JPA internals and database collation are not modelled.
  - Name order compares characters by code point.
  - Unsorted queries list rows in increasing id order. The repository promises no order there, so no property depends on it.
  - Rows with equal names come out of a sort in increasing id order. The database promises no order among them; this is a choice of the model, and no contract depends on it.
- Ids are unbounded integers rather than 64-bit `Long`. They are only compared and generated fresh, and the generator is one counter shared by all tables.
- The `Role` entity is modelled by its name only. `rolesRepository.findByName("USER")` is a membership test on the stored role names.
- `User.toResponse` and `UserResponse` are not part of this model. The login response carries the user record itself.
- The `UsersRepository` declaration is not part of this model, so nothing says whether emails are unique. `findByEmail` returns one nullable user, so it is modelled as a single-result query: it fails when several users have the email, as such a query does in Spring Data. The model does not distinguish the exception type; the failure is `NonUniqueResult`.
- `CategoryRequest` is not part of this model. It is modelled as a request carrying the category name.
- The `events` lists of `User` and `Category` are not fields. They are the queries `findByCreatorId` and `findByCategoryId`.
- Whether deleting a user cascades to that user's events is set by the `User` entity, which is not part of this model. The model deletes only the user.
- `EventsService.findEventById` and `EventsService.getUserIdFromToken` have the same bodies as their `UsersService` counterparts, so each is modelled once.
- In `listAllEventsFromUser`, the query whose result goes unused has no effect and is not modelled.
- The race between the administrator count and the delete under concurrent requests is out of scope. Calls are modelled one at a time.
- Test fixtures (`Stubs.kt`) are not modelled.
