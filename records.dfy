/** The event and category records, the request an event is built from,
    and the response view an event is projected to. */
module Records {
  import opened Domain

  /** A category record. Its `events` back-reference is not a field here: it
      is the query of the events filed under the category's id. */
  datatype Category = Category(id: Option<Id>, name: string)

  /** An event record; `creator` and `category` are the referenced records. */
  datatype Event = Event(
    id: Option<Id>,
    name: string,
    local: string,
    hour: string,
    description: string,
    creator: User,
    category: Category)

  /** The sort key of `ORDER BY e.name`. */
  function EventName(e: Event): string { e.name }

  /** The body of an event create or update request. */
  datatype EventRequest = EventRequest(
    name: string,
    local: string,
    hour: string,
    description: string,
    creatorId: Id,
    categoryId: Id)

  /** The public view of an event: references are replaced by their ids. */
  datatype EventResponse = EventResponse(
    id: Option<Id>,
    name: string,
    local: string,
    hour: string,
    description: string,
    creatorId: Id,
    categoryId: Id)

  /** `Event.toResponse`: copies the event's id and text fields and replaces
      the creator and the category by their ids. Both ids go through `!!`, so
      the projection fails when either referenced record has no id. */
  function ToResponse(e: Event): (r: Result<EventResponse>)
    ensures r.Ok? <==> e.creator.id.Some? && e.category.id.Some?
    ensures r.Err? ==> r.error == NullDereference
    ensures r.Ok? ==>
      && r.value.id == e.id
      && r.value.name == e.name
      && r.value.local == e.local
      && r.value.hour == e.hour
      && r.value.description == e.description
      && e.creator.id == Some(r.value.creatorId)
      && e.category.id == Some(r.value.categoryId)
  {
    if e.creator.id.None? || e.category.id.None? then
      Err(NullDereference)
    else
      Ok(EventResponse(e.id, e.name, e.local, e.hour, e.description, e.creator.id.value, e.category.id.value))
  }

  /** The record `saveEvent` and `updateEvent` build from a request: no id
      yet, the request's text fields, the looked-up creator and category. When
      the creator and category are the ones the request names, its response
      view gives back the request. */
  function NewEvent(req: EventRequest, creator: User, category: Category): (r: Event)
    ensures r.id.None? && r.creator == creator && r.category == category
    ensures creator.id == Some(req.creatorId) && category.id == Some(req.categoryId) ==>
      ToResponse(r) == Ok(EventResponse(None, req.name, req.local, req.hour, req.description, req.creatorId, req.categoryId))
  {
    Event(None, req.name, req.local, req.hour, req.description, creator, category)
  }
}
