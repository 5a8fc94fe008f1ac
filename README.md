# Event scheduler: admission of timed events

This project models the server side of a small event scheduler. An administrator publishes single-day events, each with a
title, an optional description, a date and a start and end time written `HH:mm`. Visitors list them. The one hard rule is
that two events on the same calendar day never have overlapping times.

The model follows `backend/controllers/eventController.js`, `backend/utils/validators.js` and `backend/models/Event.js`:

- `Times`: JavaScript's string `<` as an explicit lexicographic order (`Less`), and the time pattern
  `^([0-1]?[0-9]|2[0-3]):[0-5][0-9]$` (`IsTime`).
- `Dates`: instants as millisecond counts on the local clock, `setHours(0, 0, 0, 0)` as rounding down to `Midnight`, and
  the date validator's "not in the past" test with the clock reading passed in as `now`.
- `Text`: the two ways the server counts characters: validator.js `isLength` (`ValidatorLength`) and JavaScript
  `.length` in UTF-16 code units (`Utf16Length`), which Mongoose's `minlength` and `maxlength` use.
- `Validators`: the `trim()` sanitizer and the `eventValidation`, `registerValidation` and `loginValidation` chains. Each
  chain is a function that returns the first error message in chain order, or `None` when the input passes.
- `EventModel`: the `Event` record, the document the schema checks, the schema's validators, and the update validators
  that `runValidators` applies to the fields an update sets.
- `EventController`: `checkOverlap` as `Overlap`, and the admission protocol of `createEvent`, `updateEvent` and
  `deleteEvent` as step functions on a `Store` value. The steps run in the source's order: validation, range check, day
  normalisation, a same-day scan that stops at the first conflict, the schema's validation, then the write. The
  `EventStore` class holds the events as a sequence. Its methods perform the same steps in place, with the scan as a
  loop, and are proved equal to the step functions. The store invariant is proved for each step and for any sequence of
  requests: every stored event passed admission and the schema, ids are unique, and no two events of one day overlap
  when their times are compared as strings. `getEvents` and `getEvent` are read-only methods of the class.

Times are compared as strings, exactly as the controller does. For zero-padded `HH:mm` times this is clock order
(`PaddedOrderIsClockOrder`). The pattern also accepts one-digit hours such as `9:05`, and then the two orders disagree:
`"10:00"` sorts before `"9:05"` (`ShortHourBreaksClockOrder`). As a result, a request from `9:05` to `10:00` passes
validation and is then refused with "End time must be after start time". The model keeps this behaviour.

The same mismatch lets one clock slot be booked twice. With `9:00`-`9:30` stored on a day, a create for `09:00`-`09:30`
on that day covers the same minutes. As strings, though, `"09:30" > "9:00"` is false, so `checkOverlap` is false and the
event is created (`MixedPaddingDoubleBooks`). The invariant's "no overlap" is therefore string overlap. It means
disjoint clock times only when every stored time is zero-padded (`PaddedStoreIsClockDisjoint`).

The request validator and the schema count lengths differently. `isLength` counts a character above U+FFFF once and
does not count the presentation selectors U+FE0E and U+FE0F. The schema's `minlength` and `maxlength` count UTF-16 code
units, where a character above U+FFFF counts twice. So a description of 300 emoji passes `isLength({ max: 500 })` and
then fails the schema (`WideDescriptionPassesValidatorOnly`). `Event.create` and the update validators throw, and the
controller answers 500 (`SchemaRejected`). On text without such characters the two counts agree, and every valid
request passes the schema (`PlainRequestFitsSchema`). The update validators run before the database looks the id up,
so an update that fails them is answered 500 even when the id is unknown.

The password rule `^(?=.*[A-Za-z])(?=.*\d)` is modelled as written. Because `.` does not match line terminators, the
letter and the digit must both appear before the first line break (`PatternSeesFirstLineOnly`).

## Model

| member | source | states |
|---|---|---|
| Times.Less | backend/controllers/eventController.js:5 | JavaScript string `<`: lexicographic, a proper prefix first. Its order laws are the four lemmas below. |
| Times.LessIrreflexive | backend/controllers/eventController.js:5 | No time string is strictly before itself under JavaScript's string `<`. |
| Times.LessTransitive | backend/controllers/eventController.js:5 | String `<` is transitive. |
| Times.LessTotal | backend/controllers/eventController.js:5 | Of two different strings, one is strictly before the other. |
| Times.LessAsymmetric | backend/controllers/eventController.js:17 | If `a < b` then not `b < a`, so `endTime <= startTime` and `startTime < endTime` exclude each other. |
| Times.IsTime | backend/utils/validators.js:27-28 | The `HH:mm` pattern: a one-digit hour, or a two-character hour from 00 to 23, then a colon and minutes from 00 to 59. What it accepts is characterised by the two lemmas below. |
| Times.ClockMinutes | backend/utils/validators.js:27-28 | Every time the pattern accepts denotes a minute of the day below 24 * 60. |
| Times.FormattedTimesAccepted | backend/utils/validators.js:27-28 | Every hour 0-23 and minute 0-59 passes the pattern zero-padded. Below ten o'clock it also passes with a one-digit hour. Either form reads back as the same minute of the day. |
| Times.AcceptedTimesAreFormatted | backend/utils/validators.js:27-28 | Every accepted string has hour < 24 and minute < 60 and is exactly the padded or one-digit-hour rendering of them. So `24:00` and `12:60` are refused. |
| Times.PaddedOrderIsClockOrder | backend/controllers/eventController.js:5 | For five-character zero-padded times, string `<` holds iff the first is earlier in the day. |
| Times.ShortHourBreaksClockOrder | backend/utils/validators.js:27 | `9:05` and `10:00` both pass the pattern. `9:05` is earlier in the day, yet `"10:00" < "9:05"` as strings. |
| Dates.Midnight | backend/controllers/eventController.js:21-22 | The normalised date is a multiple of a day, at most the instant, and less than a day before it. |
| Dates.MidnightIdempotent | backend/controllers/eventController.js:21-22 | Normalising an already normalised date changes nothing. |
| Dates.SameMidnightIffSameDay | backend/controllers/eventController.js:21-24 | Two instants normalise to the same stored date iff they lie on the same day. |
| Dates.IsPast | backend/utils/validators.js:18-26 | The custom date check: the instant is before the midnight that starts today. Characterised by `PastIffEarlierDay`. |
| Dates.PastIffEarlierDay | backend/utils/validators.js:18-26 | A date is rejected as past iff its day is strictly before today's; any instant of today is accepted. |
| Text.ValidatorLength | backend/utils/validators.js:16-17 | The count of `isLength`: at most the number of characters; presentation selectors are not counted. |
| Text.Utf16Length | backend/models/Event.js:7-12 | The count of `minlength` and `maxlength`, UTF-16 code units: between one and two per character. |
| Text.PlainTextLengthsAgree | backend/utils/validators.js:16-17 | On text with no character above U+FFFF and no presentation selector, both counts equal the number of characters. |
| Text.AstralTextLengths | backend/models/Event.js:10-13 | On text made of characters above U+FFFF, `isLength` counts each once and the schema counts each twice. |
| Validators.TrimStart | backend/utils/validators.js:16 | The result is a suffix of the input. Every dropped character is whitespace. The result is empty or starts with a non-space. |
| Validators.TrimEnd | backend/utils/validators.js:16 | The result is a prefix of the input. Every dropped character is whitespace. The result is empty or ends with a non-space. |
| Validators.Trim | backend/utils/validators.js:16 | The result is no longer than the input and has no whitespace at either end. |
| Validators.TrimIdempotent | backend/utils/validators.js:16 | Trimming a trimmed value leaves it unchanged. |
| Validators.EventValidation | backend/utils/validators.js:15-29 | The event chain passes iff `isLength` counts 3 to 100 characters in the trimmed title, the description is absent or counts at most 500, the date is ISO 8601 and not past, and both times match. A bad title's message comes first, then the description's. |
| Validators.TodayIsNotPast | backend/utils/validators.js:18-26 | With the other fields valid, a date on today's day passes and a date on an earlier day fails with "Date cannot be in the past". |
| Validators.FirstLine | backend/utils/validators.js:7 | The text the password look-aheads can see: the longest prefix free of line terminators. |
| Validators.PasswordPattern | backend/utils/validators.js:7 | The look-aheads `(?=.*[A-Za-z])(?=.*\d)`: a letter and a digit in the text `.` can cover, that is the first line. |
| Validators.PasswordPatternMeaning | backend/utils/validators.js:7 | A password that passes the pattern contains a letter and a digit. For a single-line password, passing is exactly that. |
| Validators.FirstLineStopsAtBreak | backend/utils/validators.js:7 | When `line` holds no line terminator, the look-aheads see exactly `line` in `line + "\n" + rest`. |
| Validators.PatternSeesFirstLineOnly | backend/utils/validators.js:7 | A password made of a line, a line break and more text passes the pattern iff that first line has a letter and a digit. A digit that appears only after the break does not count. |
| Validators.RegisterValidation | backend/utils/validators.js:3-8 | Registration passes iff `isLength` counts at least 2 characters in the trimmed name, the email is valid, and the password counts at least 6 and passes the pattern. A short password reports the length message first. |
| Validators.LoginValidation | backend/utils/validators.js:10-13 | Login passes iff the email is valid and the password is non-empty. |
| EventModel.SchemaValid | backend/models/Event.js:3-33 | The schema: title required with 3 to 100 code units, description at most 500, date required, both times required and matching the pattern, author required. |
| EventModel.UpdateValid | backend/controllers/eventController.js:109-113 | The update validators over the paths the update sets: title, times and, when given, the description, with the schema's limits. |
| EventModel.FromDoc | backend/models/Event.js:3-33 | A document that passes the schema becomes a well-formed event with a title of 3 to 100 code units and two times matching `HH:mm`. |
| EventController.Overlap | backend/controllers/eventController.js:4-6 | `checkOverlap`: new start before existing end and new end after existing start, as strings. Its properties are the lemmas below. |
| EventController.OverlapSymmetric | backend/controllers/eventController.js:4-6 | `checkOverlap(a,b,c,d) == checkOverlap(c,d,a,b)`. |
| EventController.TouchingRangesDoNotOverlap | backend/controllers/eventController.js:5 | When one range starts exactly where the other ends, they do not overlap. |
| EventController.PaddedOverlapIsClockOverlap | backend/controllers/eventController.js:4-6 | For zero-padded times, `checkOverlap` holds iff the half-open minute ranges intersect. |
| EventController.BoundaryExamples | backend/controllers/eventController.js:4-6 | `[09:00,10:00)` and `[10:00,11:00)` do not overlap; `[09:00,10:01)` and `[10:00,11:00)` do. |
| EventController.SameDay | backend/controllers/eventController.js:98-101 | The query result holds exactly the stored events with that date, leaving out the excluded id. |
| EventController.IndexOfId | backend/controllers/eventController.js:109-113 | The lookup finds the first event with the id, or reports that no event has it. |
| EventController.NewEvent | backend/controllers/eventController.js:32-39 | The document create writes: the trimmed title, the description, the normalised date, the times and the caller as author. |
| EventController.Revise | backend/controllers/eventController.js:109-113 | The update keeps the event's id and author. A request without a description keeps the stored one. |
| EventController.CreateStep | backend/controllers/eventController.js:8-45 | Only a created event changes the store: it is appended under the next id and the counter advances. Every other outcome leaves the store as it was. |
| EventController.UpdateStep | backend/controllers/eventController.js:82-123 | Only an updated event changes the store: the event carries the requested id, is stored, and the store keeps its size and counter. Every other outcome leaves the store as it was. |
| EventController.DeleteStep | backend/controllers/eventController.js:125-137 | The answer is either a deletion, which removes one event, or 404 with the store unchanged. |
| EventController.CreateAndUpdateCheckSameFields | backend/controllers/eventController.js:32-39 | The schema accepts create's new document iff the update validators accept the same request. |
| EventController.WrittenEventAdmitted | backend/controllers/eventController.js:32-39 | A request that passed the range check and the schema yields an admissible event, for create and for update over an admitted event. |
| EventController.PlainRequestFitsSchema | backend/utils/validators.js:16-17 | A valid request whose title and description contain no character above U+FFFF and no presentation selector passes the schema. |
| EventController.WideDescriptionPassesValidatorOnly | backend/utils/validators.js:17 | A description of 251 to 500 characters above U+FFFF passes the event chain but fails the schema. |
| EventController.CreatePreservesInvariant | backend/controllers/eventController.js:8-45 | Create keeps the store invariant: admitted, schema-valid events, unique ids, no two events of one day overlapping as strings. |
| EventController.UpdatePreservesInvariant | backend/controllers/eventController.js:82-123 | Update keeps the store invariant. |
| EventController.DeletePreservesInvariant | backend/controllers/eventController.js:125-137 | Delete, which re-checks nothing, keeps the store invariant. |
| EventController.StepPreservesInvariant | backend/controllers/eventController.js:8-137 | Any single create, update or delete keeps the invariant. |
| EventController.RunPreservesInvariant | backend/controllers/eventController.js:8-137 | Any sequence of creates, updates and deletes, served one after another, keeps the invariant. |
| EventController.RangeCheckedBeforeStore | backend/controllers/eventController.js:17-19 | A valid request with `endTime <= startTime` gets the range error from create and update, whatever the store holds, and the store is unchanged. |
| EventController.CreateAdmitsIffNoSameDayOverlap | backend/controllers/eventController.js:21-39 | A valid, well-ordered create is persisted iff no stored event of its normalised day overlaps it and the schema accepts it. The event is `NewEvent` under the next id, appended to the store. An overlap gives "Time slot already booked", a schema failure 500, and the store is unchanged. |
| EventController.OtherDaysNeverConflict | backend/controllers/eventController.js:24 | Events of other days never block a create: on an empty day a valid, well-ordered request is created unless the schema refuses it. |
| EventController.UpdateAdmitsIffNoOtherSameDayOverlap | backend/controllers/eventController.js:95-113 | For a stored event, a valid, well-ordered update is written iff no OTHER event of the new day overlaps it and the update validators pass; then only that event changes. An overlap gives Conflict and a schema failure 500, with the store unchanged. |
| EventController.UpdateToOwnSlotAdmitted | backend/controllers/eventController.js:98-113 | In a store that keeps the invariant, updating an event to its own day and times passes the scan, which skips its own id; it is updated unless the update validators refuse it. |
| EventController.UpdateMissingIdScansFirst | backend/controllers/eventController.js:103-117 | For an unknown id, a conflicting request is answered 400, a schema failure 500, and only a request that passes both reaches 404. The store is unchanged. |
| EventController.DeleteRemovesOnlyThatEvent | backend/controllers/eventController.js:127-131 | Delete succeeds iff an event has the id. It removes exactly that event from its position, keeping the others in order. An unknown id is 404 and changes nothing. |
| EventController.PaddedStoreIsClockDisjoint | backend/controllers/eventController.js:4-6 | When every stored time is zero-padded, each event ends after it starts and two events of one day occupy disjoint minute ranges. |
| EventController.MixedPaddingSlots | backend/controllers/eventController.js:5 | `9:00`-`9:30` and `09:00`-`09:30` both pass the pattern, cover the same minutes, and do not overlap as strings. |
| EventController.ShortHourStoreAdmitted | backend/utils/validators.js:27-28 | A store holding `9:00`-`9:30` with a one-digit hour keeps the invariant. |
| EventController.MixedPaddingDoubleBooks | backend/controllers/eventController.js:24-39 | With `9:00`-`9:30` stored, a create for `09:00`-`09:30` on the same day is created: one clock slot booked twice. |
| EventController.ScenarioOverlapRefused | backend/controllers/eventController.js:26-29 | With 09:00-10:00 stored, a request for 09:30-10:30 on that day is refused as booked. |
| EventController.ScenarioBackToBackAdmitted | backend/controllers/eventController.js:26-39 | With 09:00-10:00 stored, 10:00-11:00 on that day passes the scan and is created unless the schema refuses it. |
| EventController.ScenarioNextDayAdmitted | backend/controllers/eventController.js:21-39 | With 09:00-10:00 stored, any valid, well-ordered request for the next day passes the scan and is created unless the schema refuses it. |
| EventController.ScenarioMoveSelfAdmitted | backend/controllers/eventController.js:98-113 | Moving the stored event itself to 08:00-09:30 passes the scan and is updated unless the update validators refuse it. |
| EventController.Precedes | backend/controllers/eventController.js:60 | The order of `.sort({ date: 1, startTime: 1 })`: by date, then by start time as a string. |
| EventController.PrecedesTotal | backend/controllers/eventController.js:60 | Any two events are ordered one way or the other by (date, startTime). |
| EventController.PrecedesTransitive | backend/controllers/eventController.js:60 | The (date, startTime) order is transitive. |
| EventController.SortByDateTime | backend/controllers/eventController.js:58-60 | The sorted listing is a permutation of its input, ordered by date and then start time. |
| EventController.EventStore.constructor | backend/models/Event.js:39 | A fresh events collection is empty and satisfies the invariant. |
| EventController.EventStore.ScanForConflict | backend/controllers/eventController.js:26-30 | The early-return loop reports a conflict iff some fetched event overlaps the candidate. |
| EventController.EventStore.Create | backend/controllers/eventController.js:8-45 | Its outcome and new state are exactly those of the create step, schema check included. The invariant is kept. |
| EventController.EventStore.Update | backend/controllers/eventController.js:82-123 | Its outcome and new state are exactly those of the update step, update validators included. The invariant is kept. |
| EventController.EventStore.Delete | backend/controllers/eventController.js:125-137 | Its outcome and new state are exactly those of the delete step. The invariant is kept. |
| EventController.EventStore.GetEvents | backend/controllers/eventController.js:47-66 | With a date: exactly the stored events of that normalised day. Without: all events. Both are ordered by date, then start time. |
| EventController.EventStore.GetEvent | backend/controllers/eventController.js:68-80 | Returns a stored event with the id. Returns nothing (404) iff no event has the id. |

## Left out

- HTTP and JSON: status codes are given by `Status` and messages by constants. Response bodies, `populate('createdBy', 'name email')` and the `try`/`catch` paths that answer 500 are not modelled. The 500 paths are database errors, an id that is not a valid ObjectId, and a date that `isISO8601` accepts but `new Date` cannot read (see `RawDate` below). A schema failure, which also answers 500, is modelled as `SchemaRejected`; the text of its message is not.
- MongoDB and Mongoose: the collection is a sequence and ids are natural numbers handed out in order. `timestamps` and the index on `date` are not modelled. `runValidators` is modelled by `UpdateValid`, checked before the id is looked up, as Mongoose validates an update before it sends the query.
- Routing: `protect`, `authorize('admin')` and the validator middleware run before the controller. Create and update evaluate `EventValidation` themselves; authentication and the admin role are not modelled.
- Concurrency: requests are served one at a time. The check-then-act race between the same-day fetch and the write is not modelled.
- Library checks: `isISO8601` and `isEmail` are boolean inputs. `normalizeEmail` is not modelled.
- Clock and time zone: the current time is the parameter `now`. Dates are instants on the local clock with a day of fixed length. Daylight-saving changes are not modelled. `new Date` reads a date-only ISO string as UTC midnight; that is not modelled either.
- Character width: Dafny strings are sequences of Unicode scalar values, while JavaScript strings are UTF-16 code units. Both length counts are modelled (`ValidatorLength`, `Utf16Length`). String comparison is by scalar value, which orders characters above U+FFFF differently from code units; the only strings the model compares are times, which the pattern limits to ASCII.
- RawDate: `instant` is always a readable instant, so a date that passes `isISO8601` but that `new Date` reads as Invalid Date is not modelled. Week and ordinal dates such as `2030-W01-1` are examples. In the source, the past-date check compares `NaN < today`, which is false, so validation passes. `Event.find({ date: Invalid Date })` then fails to cast and the controller answers 500. In the model every valid request reaches a decision.
- `getEvents` with a `date` query that does not parse as a date is not modelled: the query date is an optional instant.
- EventController.EventStore.GetEvents: does not fix the order of events with equal date and start time, because the database's sort does not fix it either.
- Update without a description: the request leaves the stored description as it is. This is Mongoose 6 and later, which drop undefined keys from updates. Older versions would clear the field.
- The frontend (pages, components, calendar view) is not part of this model.
