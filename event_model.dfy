/**
 * The Event record and the Mongoose schema that guards every document written
 * to the events collection.
 */
module EventModel {
  import opened Wrappers
  import opened Times
  import opened Text

  /** Store-assigned identifiers of events and users. */
  type EventId = nat
  type UserId = nat

  /**
   * A stored event. `date` is an instant (see Dates) that the controller has
   * normalised to local midnight; `createdBy` refers to the admin who created it.
   */
  datatype Event = Event(
    id: EventId,
    title: string,
    description: Option<string>,
    date: int,
    startTime: string,
    endTime: string,
    createdBy: UserId)

  /** A document as the schema sees it before it is saved: any field may be missing. */
  datatype EventDoc = EventDoc(
    title: Option<string>,
    description: Option<string>,
    date: Option<int>,
    startTime: Option<string>,
    endTime: Option<string>,
    createdBy: Option<UserId>)

  /** Mongoose's `required` on a string field refuses a missing value and the empty string. */
  predicate RequiredString(s: Option<string>)
  {
    s.Some? && |s.value| > 0
  }

  /**
   * The schema's validators: title required with 3 to 100 characters, an
   * optional description of at most 500, date required, both times required
   * and matching the `HH:mm` pattern, and the author required. Lengths are
   * JavaScript `.length`, in UTF-16 code units.
   */
  predicate SchemaValid(doc: EventDoc)
  {
    && RequiredString(doc.title) && 3 <= Utf16Length(doc.title.value) <= 100
    && (doc.description.Some? ==> Utf16Length(doc.description.value) <= 500)
    && doc.date.Some?
    && RequiredString(doc.startTime) && IsTime(doc.startTime.value)
    && RequiredString(doc.endTime) && IsTime(doc.endTime.value)
    && doc.createdBy.Some?
  }

  /**
   * The update validators (`runValidators: true`) over the paths an update
   * sets: title, times and, when the update carries one, the description.
   * The date is always set and the author is never touched.
   */
  predicate UpdateValid(title: string, description: Option<string>, startTime: string, endTime: string)
  {
    && |title| > 0 && 3 <= Utf16Length(title) <= 100
    && (description.Some? ==> Utf16Length(description.value) <= 500)
    && |startTime| > 0 && IsTime(startTime)
    && |endTime| > 0 && IsTime(endTime)
  }

  /** The document a stored event was saved from. */
  function DocOf(e: Event): EventDoc
  {
    EventDoc(Some(e.title), e.description, Some(e.date), Some(e.startTime), Some(e.endTime), Some(e.createdBy))
  }

  /** The record a document that passed the schema becomes once the store gives it an id. */
  function FromDoc(id: EventId, doc: EventDoc): (e: Event)
    requires SchemaValid(doc)
    ensures e.id == id
    ensures IsTime(e.startTime) && IsTime(e.endTime) && 3 <= Utf16Length(e.title) <= 100
    ensures WellFormed(e)
  {
    Event(id, doc.title.value, doc.description, doc.date.value,
          doc.startTime.value, doc.endTime.value, doc.createdBy.value)
  }

  /** A stored event satisfies the schema. */
  predicate WellFormed(e: Event)
  {
    SchemaValid(DocOf(e))
  }
}
