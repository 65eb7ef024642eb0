# Event and booking records: a verified model of the write path

The application stores two kinds of record in a document database through
Mongoose schemas: events and bookings. Before either is written, Mongoose
does three things in order:

1. It runs the schema's setters when fields are assigned: `trim` and
   `lowercase`.
2. It runs the schema's validators.
3. It runs the record's `pre('save')` hook.

A unique index on the event slug can then still refuse the write.

This project models that pipeline in Dafny and proves what it guarantees.

For the event record (`src/database/event.model.js`), the model covers:

- the setters and validators of every path (lines 6-86);
- `generateSlug` (117-124);
- the `pre('save')` hook, which re-derives the slug and normalises `date` and
  `time` (95-114);
- the helpers `normalizeDate` and `normalizeTime` (127-144);
- the unique index on `slug` (14, 147).

For the booking record (`src/database/booking.model.js`), the model covers:

- the required `eventId` (5-9);
- the `email` path, with its setters and the pattern
  `/^[^\s@]+@[^\s@]+\.[^\s@]+$/` (10-22);
- the `pre('save')` hook, which checks that the event exists (32-53).

Files:

- `common.dfy`: `Option` and `Result`, JavaScript errors, the signal a hook
  passes to `next`, and the outcome of a save.
- `text.dfy`: the string primitives.
  - ECMAScript white space, which is what both `trim` and `\s` use.
  - `trim`, and its commuting with `toLowerCase`.
  - ASCII lower case, and decimal digits with zero padding.
- `slug.dfy`: `generateSlug`, written step by step as the source chains its
  calls. Next to it is an independent description: the title's lower-cased
  runs of word characters, joined by hyphens.
- `datetime.dfy`: `normalizeDate` and `normalizeTime`.
  - The date is the date part of `toISOString`, including its expanded
    `±YYYYYY` years.
  - The time is the `HH:MM` format.
  - Each also has a reader for its canonical form.
- `event.dfy`: the event schema.
  - The setters, the validators and the errors they report.
  - The hook, first as a function on values and then as the method
    `EventDocument.PreSave`, which updates the document's fields in place.
  - The unique index, and the save of a new event.
- `booking.dfy`: the booking schema.
  - The email setters and the pattern, with a pattern-free definition of a
    well-formed address.
  - The hook as the method `BookingDocument.PreSave`, which records every
    value passed to `next` and every lookup.
  - The save of a new booking.

`normalizeDate` and `normalizeTime` call `new Date(...)`, and the booking hook
calls `Event.findById`. None of these are modelled. Each is a parameter of the
model instead:

- the date and time parsers are functions returning `Option`;
- the lookup is a function from an id to `Found`, `NotFound` or `LookupError`.

Two details of the code that the model keeps as written:

- **Description limit.** The code limits `description` to 1000 characters,
  but its message says "cannot exceed 500 characters"
  (`EventModel.DescriptionLimit`).
- **The last part of an address.** The pattern's class `[^\s@]` excludes `@`
  as well as white space, so a valid address holds exactly one `@`.

## Model

| member | source | states |
|---|---|---|
| `Text.TrimSpec` | src/database/event.model.js:9 | `trim` leaves a string that neither starts nor ends with white space. That string is a contiguous part of the input with only white space around it. |
| `Text.TrimIdempotent` | src/database/event.model.js:9 | Trimming twice is the same as trimming once. |
| `Text.TrimLowerCommute` | src/database/event.model.js:15-16 | `trim` and `toLowerCase` commute, so the order of the `lowercase` and `trim` setters does not matter. |
| `Text.LowerAsciiNormalises` | src/database/event.model.js:15 | Lower-casing leaves no upper-case letter, and changes nothing in a string that has none. |
| `Slugify.SlugIsJoinedWords` | src/database/event.model.js:117-124 | `generateSlug(t)` is the lower-cased title's maximal runs of word characters, joined by single hyphens. |
| `Slugify.SlugShape` | src/database/event.model.js:120-123 | Every slug (for any title, ASCII or not) has only `a`-`z`, `0`-`9`, `_` and `-`. It never starts or ends with `-` and never contains `--`. |
| `Slugify.SlugFixpoint` | src/database/event.model.js:117-124 | `generateSlug(s) == s` exactly when `s` has the slug shape. |
| `Slugify.SlugIdempotent` | src/database/event.model.js:117-124 | `generateSlug(generateSlug(t)) == generateSlug(t)`. |
| `Slugify.SlugShapedIsLowerTrimmed` | src/database/event.model.js:120-121 | A string with the slug shape has no upper-case letter and no white space at either end. |
| `Slugify.WordsOfTrim` | src/database/event.model.js:121 | Trimming a string keeps its words. |
| `Slugify.SkipSeparators` | src/database/event.model.js:122 | The result is a suffix of the input. Everything dropped is a separator, and the result starts with a word character or is empty. |
| `Slugify.DropLeadingHyphens` | src/database/event.model.js:123 | The `^-+` alternative removes exactly the leading run of hyphens. |
| `Slugify.DropTrailingHyphens` | src/database/event.model.js:123 | The `-+$` alternative removes exactly the trailing run of hyphens. |
| `Slugify.SlugOfThreeWords` | src/database/event.model.js:117-124 | Three words with runs of separators between them (and any after) give `a-b-c`. |
| `Slugify.SlugOfMyCoolEvent` | src/database/event.model.js:122-123 | `"My Cool Event!!"` and `"My Cool Event"` both give `"my-cool-event"`. |
| `Slugify.SlugOfSymbols` | src/database/event.model.js:122-123 | A title of symbols only, `"???"`, gives the empty slug. |
| `DateTime.NormalizeDate` | src/database/event.model.js:127-133 | Throws `Error('Invalid date format')` exactly when the parser finds no date. Otherwise returns the date part of `toISOString` of the parsed date. |
| `DateTime.NormalizeTime` | src/database/event.model.js:135-144 | Throws `Error('Invalid time format')` exactly when the parser finds no time. Otherwise returns the hour and minute, each padded to two digits. |
| `DateTime.NormalizeDateCanonical` | src/database/event.model.js:132 | A normalised date has the form `YYYY-MM-DD` exactly when its year is in 0..9999, and it then reads back as the parsed date. |
| `DateTime.NormalizeTimeCanonical` | src/database/event.model.js:141-143 | A normalised time always has the form `HH:MM` (hour at most 23, minute at most 59) and reads back as the parsed time. |
| `DateTime.IsoDateRoundTrip` | src/database/event.model.js:132 | `toISOString`'s date part of a date in years 0..9999 is `YYYY-MM-DD` and parses back to the date. Dates in other years never have that form. |
| `DateTime.IsoDateOfParsed` | src/database/event.model.js:132 | Every `YYYY-MM-DD` string is the ISO date of the date it denotes. |
| `DateTime.ExpandedYear` | src/database/event.model.js:132 | A year outside 0..9999 is written as a sign (`-` exactly when the year is negative) followed by six digits whose value is the absolute year. |
| `DateTime.HHMMRoundTrip` | src/database/event.model.js:141-143 | Every time of day is written as `HH:MM` and reads back as itself. |
| `DateTime.HHMMOfParsed` | src/database/event.model.js:141-143 | Every `HH:MM` string is the written form of the time it denotes. |
| `DateTime.NormalizeDateIdempotent` | src/database/event.model.js:127-133 | When the parser reads the ISO form of the date it found in the input back as that same date, normalising the normalised value again changes nothing. |
| `DateTime.NormalizeTimeIdempotent` | src/database/event.model.js:135-144 | With a parser that reads `HH:MM` back, normalising a normalised time changes nothing. |
| `EventModel.SlugSetterNormalises` | src/database/event.model.js:12-17 | The `slug` setters store a trimmed string with no upper-case letter. |
| `EventModel.SettersNormalise` | src/database/event.model.js:6-86 | After assignment every `trim: true` path is trimmed and `slug` is also lower-cased. `date`, `time`, `mode`, `agenda` and `tags` are stored as given. |
| `EventModel.SettersIdempotent` | src/database/event.model.js:6-86 | Assigning a document's stored values again stores the same document. |
| `EventModel.SlugSetterOfGenerated` | src/database/event.model.js:100 | The slug setters leave a generated slug unchanged, so the hook stores `generateSlug(title)` itself. |
| `EventModel.ValidationMatchesConstraints` | src/database/event.model.js:6-86 | Validation reports no error exactly when all hold: title of 1..100 characters, description of 1..1000, overview of 1..500, the other required strings non-empty, a mode among online/offline/hybrid, and non-empty agenda and tags. |
| `EventModel.ValidationReportsFailures` | src/database/event.model.js:6-86 | An error (path, message) is reported exactly when that message is the first failing validator of that path. |
| `EventModel.OneErrorPerPath` | src/database/event.model.js:6-86 | No path is reported twice. |
| `EventModel.FirstBrokenPath` | src/database/event.model.js:6-86 | When a constraint fails, some path has a failing validator. |
| `EventModel.FirstBrokenPathIsFirst` | src/database/event.model.js:6-86 | Every path declared before the one `FirstBrokenPath` picks passes its validators, so it is the first failing path in schema order. |
| `EventModel.DescriptionLimit` | src/database/event.model.js:22 | 1000 characters pass. 1001 are refused with the message about 500. |
| `EventModel.PreSaveEffect` | src/database/event.model.js:95-114 | The hook changes no path other than `slug`, `date` and `time`. |
| `EventModel.PreSaveSlug` | src/database/event.model.js:99-101 | The slug becomes `generateSlug(title)` when the document is new or its title was modified, and is left alone otherwise. |
| `EventModel.PreSaveUnmodified` | src/database/event.model.js:104-111 | An unmodified `date` or `time` is left as it is. |
| `EventModel.PreSaveNormalised` | src/database/event.model.js:104-111 | When the hook reaches `next()`, a modified `date` or `time` holds what the helper returned for it. |
| `EventModel.PreSaveFailure` | src/database/event.model.js:104-111 | The hook fails exactly when a modified `date` or `time` does not parse, and the date error comes first. A failure leaves `time` unchanged, and leaves `date` unchanged when the date caused it. A time failure comes after `date` was already normalised. |
| `EventModel.PreSaveCanonical` | src/database/event.model.js:104-111 | After a successful hook, a modified `date` (year 0..9999) is `YYYY-MM-DD` and a modified `time` is `HH:MM`, each reading back as the parsed value. |
| `EventModel.ResaveUnchanged` | src/database/event.model.js:95-114 | Re-saving a stored event whose title, date and time were not modified (say only its description changed) proceeds and changes nothing. |
| `EventModel.PreSaveKeepsValid` | src/database/event.model.js:95-114 | A successful hook keeps a valid document valid, for new and stored documents alike and whatever paths are modified. |
| `EventModel.EventDocument.constructor` | src/database/event.model.js:95-96 | Builds the document seen by the hook, with its paths, `isNew` flag and modified paths. |
| `EventModel.EventDocument.PreSave` | src/database/event.model.js:95-114 | Updates `slug`, `date` and `time` in place, as `HookSteps` describes from the old values, stopping at the first helper that throws. Returns what is passed to `next`. |
| `EventModel.InsertEvent` | src/database/event.model.js:147 | A write is refused with a duplicate-key error exactly when a stored event has the slug. It otherwise appends the event, keeping slugs unique. |
| `EventModel.Commit` | src/database/event.model.js:147 | A hook error, or a duplicate slug, leaves the collection unchanged. Otherwise the document is appended. Unique slugs stay unique. |
| `EventModel.SaveNewEventSound` | src/database/event.model.js:6-114 | A refused save keeps the collection. Validation refuses exactly the documents that break a constraint after their setters. A save succeeds exactly when the document after its setters is valid, its `date` and `time` parse, and no stored event has the slug `generateSlug(title)`. A successful save appends exactly the set document with that slug, `date` as the ISO date of the parsed date and `time` as `HH:MM` of the parsed time, and the appended event is valid. |
| `EventModel.SaveNewEventUnique` | src/database/event.model.js:147 | Saving keeps event slugs unique. |
| `EventModel.SlugOfTrimmedTitle` | src/database/event.model.js:117-124 | The title setter's trim does not change the title's slug. |
| `EventModel.SameSlugRefused` | src/database/event.model.js:147 | Once an event is stored, a valid second event whose title gives the same slug is refused with a duplicate-key error, and nothing is stored. |
| `EventModel.MyCoolEventTwice` | src/database/event.model.js:147 | After `"My Cool Event!!"` is stored, `"My Cool Event"` is refused on the slug `my-cool-event`. |
| `BookingModel.NormalizeEmailSpec` | src/database/booking.model.js:13-14 | The stored email is the trimmed, lower-cased input, in either order of the setters. It is trimmed and has no upper-case letter. |
| `BookingModel.NormalizeEmailIdempotent` | src/database/booking.model.js:13-14 | Normalising a stored email again changes nothing. |
| `BookingModel.EmailRegexIff` | src/database/booking.model.js:18 | The pattern accepts an address exactly when all hold: it has no white space and exactly one `@`, something precedes the `@`, and after it a `.` has a character on each side. |
| `BookingModel.NoAtRefused` | src/database/booking.model.js:18 | An address without `@` is refused. |
| `BookingModel.NoDotAfterAtRefused` | src/database/booking.model.js:18 | An address with no `.` after its `@` is refused. |
| `BookingModel.ValidationMatchesConstraints` | src/database/booking.model.js:5-22 | Validation reports nothing exactly when the booking names an event and its stored email is well formed. |
| `BookingModel.ValidationReportsFailures` | src/database/booking.model.js:5-22 | Each failing path is reported once, with its first failing message, `eventId` before `email`. |
| `BookingModel.MissingEventIdRequired` | src/database/booking.model.js:5-9 | A booking without `eventId` is refused with `Event ID is required`. |
| `BookingModel.HookDecisionSpec` | src/database/booking.model.js:32-53 | The hook proceeds exactly when no lookup is due, or when the event is found. `NotFound` gives `ValidationError` "Event does not exist". A failed lookup gives `ValidationError` "Invalid event ID format or database error". The two messages differ. |
| `BookingModel.BookingDocument.constructor` | src/database/booking.model.js:3-23 | A new booking stores `eventId` as given, its email through the setters, and the assigned paths as modified. |
| `BookingModel.BookingDocument.AssignEmail` | src/database/booking.model.js:10-14 | Assigning an email to a stored document stores its trimmed, lower-cased form, and marks `email` modified when the stored value changes. |
| `BookingModel.BookingDocument.AssignEventId` | src/database/booking.model.js:5-9 | Assigning `eventId` on a stored document stores it, and marks it modified when it changes. |
| `BookingModel.BookingDocument.PreSave` | src/database/booking.model.js:32-53 | `next` is called exactly once, with `HookDecision`'s value. The event is looked up once when the booking is new or `eventId` was modified, and not at all otherwise. |
| `BookingModel.ResaveSkipsLookup` | src/database/booking.model.js:36-52 | A stored booking whose `eventId` was not modified proceeds without a lookup. |
| `BookingModel.SaveNewBookingSound` | src/database/booking.model.js:3-53 | A booking is stored exactly when it names an event the lookup finds and its normalised email is well formed. It is then appended in normalised form. Otherwise the collection is unchanged, with the validation error or the hook's `NotFound` or lookup-error reason. |
| `BookingModel.SaveWithoutEventIdRefused` | src/database/booking.model.js:5-9 | A booking without `eventId` is refused by validation, `Event ID is required` first, before any lookup. |
| `BookingModel.AsWrittenRefusesExistingEvent` | src/database/booking.model.js:38-48 | As written, the lookup always throws, so a valid booking for an existing event is refused with the lookup error. The intended lookup stores the same booking. |
| `BookingModel.AsWrittenExample` | src/database/booking.model.js:38-48 | `" Ada@Example.COM "` for an existing event is stored as `ada@example.com` by the intended lookup, and refused as written. |
| `BookingModel.ExampleAddress` | src/database/booking.model.js:13-18 | `" Ada@Example.COM "` is stored as `"ada@example.com"`, which is well formed. |

## Left out

- Mongoose and MongoDB plumbing is not modelled.
  - This covers schema construction, `mongoose.model`, and the non-unique
    indexes: event `date`/`location`, and booking `eventId`, `eventId` with
    `createdAt`, and `email`.
  - None of these has checkable logic.
  - The unique slug index is modelled as a collection that refuses a
    duplicate slug.
- The `createdAt`/`updatedAt` timestamps are left out, because they depend on
  the clock.
- JavaScript `Date` parsing is a parameter, because it is a foreign, lenient,
  timezone-dependent parser.
  - This covers `new Date(dateStr)` and `new Date('1970-01-01T' + timeStr)`.
  - The model therefore does not claim that, for example, `"1:05 PM"` parses
    as 13:05.
  - The formatting of the parsed value is modelled.
- `toLowerCase` is restricted to ASCII letters. Full Unicode case mapping is
  not modelled.
- String lengths count Dafny characters, not UTF-16 code units. The two agree
  for text without astral characters.
- The booking lookup's `async`/`await` is not modelled. No concurrency is
  involved, so the lookup is an abstract outcome.
- The race between deleting an event and validating a booking for it is left
  out.
- Casting a non-ObjectId value for `eventId` (a Mongoose `CastError`) is left
  out. An id is either present or absent.
- Unreachable messages are not modelled.
  - `'Agenda is required'` and `'Tags are required'` do not occur for an
    absent array: Mongoose stores it as `[]`, which passes `required` and
    fails the non-empty validator.
  - An explicit `null` array, which `required` would refuse with those
    messages, is not modelled: `agenda` and `tags` are `seq<string>`.
  - A missing string path is modelled as `""`, which `required` refuses like
    `undefined`.
- Mongoose's `isModified` is a set of modified paths on the document. Its
  internals are not modelled.
- `BookingModel.BookingDocument.AssignEmail` and `AssignEventId` mark a path
  modified only when its value changes, which is Mongoose's rule for a stored
  document. On a new document Mongoose may mark every assignment. The hook
  cannot see the difference, since `isNew` alone already forces the lookup.
- The unused `parse` import (src/database/event.model.js:2) is left out, as is
  JavaScript name resolution in general. The missing `Event` import is
  modelled only by its effect on the lookup (see Findings).
- EventModel.EventDocument.PreSave: the `modifies` clause is the only frame
  statement. The ensures does not restate that the other fields keep their
  old values.

## Findings

| source | as written | input that shows it | evidently intended | confidence | as-written member | corrected member |
|---|---|---|---|---|---|---|
| src/database/booking.model.js:38 | `Event` is never imported, so `Event.findById` is not the event model's lookup and throws. The catch at lines 45-48 then refuses every new booking, and every booking whose `eventId` changed, with "Invalid event ID format or database error". | A new booking with email `" Ada@Example.COM "` and the id of a stored event. | Look the id up in the event model: store the booking when the event is found, and refuse it with "Event does not exist" when it is not. | not executed | `BookingModel.AsWrittenRefusesExistingEvent` | `BookingModel.SaveNewBookingSound` |
