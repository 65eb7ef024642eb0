/** The booking record of src/database/booking.model.js: the required
    `eventId` (lines 5-9), the `email` path with its `trim` and `lowercase`
    setters and its regular-expression validator (10-22), and the
    `pre('save')` hook that looks the event up before a booking is written
    (32-53), composed into the save of a new booking. */
module BookingModel {
  import opened Wrappers
  import opened Middleware
  import opened Text

  datatype BookingPath = EventId | Email

  /** A MongoDB ObjectId, kept opaque: the model only compares them. */
  datatype ObjectId = ObjectId(hex: string)

  /** A booking document. An `eventId` that was never given is `None`, an
      email that was never given is `""`. */
  datatype Booking = Booking(eventId: Option<ObjectId>, email: string)

  // ---------------------------------------------------------------------
  // the email setters (lines 13-14)

  /** The stored form of an assigned email: `trim`, then `toLowerCase`. */
  function NormalizeEmail(v: string): string {
    LowerAscii(Trim(v))
  }

  /** The two setters commute, so the order Mongoose applies them in does
      not matter, and the stored value has neither surrounding white space
      nor an upper-case ASCII letter. */
  lemma NormalizeEmailSpec(v: string)
    ensures NormalizeEmail(v) == Trim(LowerAscii(v))
    ensures IsTrimmed(NormalizeEmail(v)) && NoUpperAscii(NormalizeEmail(v))
  {
    TrimLowerCommute(v);
    TrimSpec(LowerAscii(v));
    LowerAsciiNormalises(Trim(v));
  }

  /** Assigning a stored email again stores the same string. */
  lemma NormalizeEmailIdempotent(v: string)
    ensures NormalizeEmail(NormalizeEmail(v)) == NormalizeEmail(v)
  {
    var n := NormalizeEmail(v);
    NormalizeEmailSpec(v);
    TrimOfTrimmed(n);
    LowerAsciiNormalises(n);
  }

  /** The setters applied to a whole booking, as `new Booking(raw)` does. */
  function ApplySetters(raw: Booking): Booking {
    raw.(email := NormalizeEmail(raw.email))
  }

  // ---------------------------------------------------------------------
  // the email validator (line 18)

  /** The class `[^\s@]`. */
  predicate IsAddressChar(c: char) {
    !IsJsWhitespace(c) && c as int != 0x40
  }

  predicate AllAddressChars(s: string) {
    forall i :: 0 <= i < |s| ==> IsAddressChar(s[i])
  }

  /** `/^[^\s@]+@[^\s@]+\.[^\s@]+$/.test(s)`: three non-empty runs of
      `[^\s@]`, the first two separated by `@`, the last two by `.`. The
      middle class admits `.`, so any dot of the domain with a character on
      each side can be the one the pattern matches. */
  predicate MatchesEmailRegex(s: string) {
    exists at, dot ::
      && 0 < at && at + 1 < dot && dot + 1 < |s|
      && s[at] == '@' && s[dot] == '.'
      && AllAddressChars(s[..at]) && AllAddressChars(s[at + 1..dot]) && AllAddressChars(s[dot + 1..])
  }

  /** How many times `c` occurs in `s`. */
  function Count(s: string, c: char): nat {
    if s == [] then 0 else (if s[0] == c then 1 else 0) + Count(s[1..], c)
  }

  /** The index of the first `c` in `s`, or `|s|` when there is none. */
  function IndexOf(s: string, c: char): nat {
    if s == [] then 0 else if s[0] == c then 0 else 1 + IndexOf(s[1..], c)
  }

  /** A `.` with at least one character before it and one after it. */
  predicate HasInnerDot(d: string) {
    exists k :: 0 < k < |d| - 1 && d[k] == '.'
  }

  /** A well-formed address, stated without the pattern: no white space,
      exactly one `@`, something before it, and after it a domain holding
      an inner dot. */
  predicate IsValidEmail(s: string) {
    && NoWhitespace(s)
    && Count(s, '@') == 1
    && 0 < IndexOf(s, '@') < |s|
    && HasInnerDot(s[IndexOf(s, '@') + 1..])
  }

  lemma {:induction false} CountZero(s: string, c: char)
    ensures Count(s, c) == 0 <==> forall i :: 0 <= i < |s| ==> s[i] != c
  {
    if s != [] {
      CountZero(s[1..], c);
      assert forall i :: 1 <= i < |s| ==> s[i] == s[1..][i - 1];
    }
  }

  lemma {:induction false} CountAppend(a: string, b: string, c: char)
    ensures Count(a + b, c) == Count(a, c) + Count(b, c)
  {
    if a != [] {
      assert (a + b)[1..] == a[1..] + b;
      CountAppend(a[1..], b, c);
    } else {
      assert a + b == b;
    }
  }

  lemma {:induction false} IndexOfSpec(s: string, c: char)
    ensures IndexOf(s, c) <= |s|
    ensures IndexOf(s, c) < |s| ==> s[IndexOf(s, c)] == c
    ensures forall i :: 0 <= i < IndexOf(s, c) ==> s[i] != c
  {
    if s != [] && s[0] != c {
      IndexOfSpec(s[1..], c);
      assert forall i :: 1 <= i < |s| ==> s[i] == s[1..][i - 1];
    }
  }

  /** A `c` at `i` with none before it is the first `c`. */
  lemma IndexOfFirst(s: string, c: char, i: nat)
    requires i < |s| && s[i] == c
    requires forall j :: 0 <= j < i ==> s[j] != c
    ensures IndexOf(s, c) == i
  {
    IndexOfSpec(s, c);
  }

  /** The pattern accepts exactly the well-formed addresses. */
  lemma EmailRegexIff(s: string)
    ensures MatchesEmailRegex(s) <==> IsValidEmail(s)
  {
    if MatchesEmailRegex(s) {
      var at, dot :| && 0 < at && at + 1 < dot && dot + 1 < |s|
        && s[at] == '@' && s[dot] == '.'
        && AllAddressChars(s[..at]) && AllAddressChars(s[at + 1..dot]) && AllAddressChars(s[dot + 1..]);
      MatchIsValid(s, at, dot);
    }
    if IsValidEmail(s) {
      ValidMatches(s);
    }
  }

  lemma MatchIsValid(s: string, at: nat, dot: nat)
    requires 0 < at && at + 1 < dot && dot + 1 < |s|
    requires s[at] == '@' && s[dot] == '.'
    requires AllAddressChars(s[..at]) && AllAddressChars(s[at + 1..dot]) && AllAddressChars(s[dot + 1..])
    ensures IsValidEmail(s)
  {
    RunChars(s, 0, at);
    RunChars(s, at + 1, dot);
    RunChars(s, dot + 1, |s|);
    assert s[..at] == s[0..at] && s[dot + 1..] == s[dot + 1..|s|];
    assert NoWhitespace(s);
    CountOne(s, at);
    IndexOfFirst(s, '@', at);
    assert s[at + 1..][dot - at - 1] == '.';
  }

  /** A string whose only `@` is at `at` has one `@`. */
  lemma CountOne(s: string, at: nat)
    requires at < |s| && s[at] == '@'
    requires forall i :: 0 <= i < |s| && i != at ==> s[i] != '@'
    ensures Count(s, '@') == 1
  {
    var left, right := s[..at], s[at + 1..];
    assert s == left + [s[at]] + right;
    CountAppend(left + [s[at]], right, '@');
    CountAppend(left, [s[at]], '@');
    assert forall i :: 0 <= i < |left| ==> left[i] == s[i];
    assert forall i :: 0 <= i < |right| ==> right[i] == s[at + 1 + i];
    CountZero(left, '@');
    CountZero(right, '@');
  }

  lemma RunChars(s: string, lo: nat, hi: nat)
    requires lo <= hi <= |s| && AllAddressChars(s[lo..hi])
    ensures forall i :: lo <= i < hi ==> IsAddressChar(s[i])
  {
    assert forall i :: lo <= i < hi ==> s[i] == s[lo..hi][i - lo];
  }

  lemma ValidMatches(s: string)
    requires IsValidEmail(s)
    ensures MatchesEmailRegex(s)
  {
    var at := IndexOf(s, '@');
    IndexOfSpec(s, '@');
    OnlyAt(s, at);
    var k :| 0 < k < |s[at + 1..]| - 1 && s[at + 1..][k] == '.';
    var dot := at + 1 + k;
    assert s[dot] == '.';
    AddressRun(s, 0, at);
    AddressRun(s, at + 1, dot);
    AddressRun(s, dot + 1, |s|);
    assert s[..at] == s[0..at] && s[dot + 1..] == s[dot + 1..|s|];
  }

  /** The only `@` of a string with one `@` is its first. */
  lemma OnlyAt(s: string, at: nat)
    requires at < |s| && s[at] == '@' && Count(s, '@') == 1
    requires forall i :: 0 <= i < at ==> s[i] != '@'
    ensures forall i :: at < i < |s| ==> s[i] != '@'
  {
    var left, right := s[..at], s[at + 1..];
    assert s == left + [s[at]] + right;
    CountAppend(left + [s[at]], right, '@');
    CountAppend(left, [s[at]], '@');
    CountZero(left, '@');
    CountZero(right, '@');
    assert forall i :: at < i < |s| ==> s[i] == right[i - at - 1];
  }

  lemma AddressRun(s: string, lo: nat, hi: nat)
    requires lo <= hi <= |s| && NoWhitespace(s)
    requires forall i :: lo <= i < hi ==> s[i] != '@'
    ensures AllAddressChars(s[lo..hi])
  {
    assert forall i :: 0 <= i < hi - lo ==> s[lo..hi][i] == s[lo + i];
  }

  /** An address without `@` is refused. */
  lemma NoAtRefused(s: string)
    requires forall i :: 0 <= i < |s| ==> s[i] != '@'
    ensures !MatchesEmailRegex(s)
  {
  }

  /** An address with no `.` after its `@` is refused. */
  lemma NoDotAfterAtRefused(s: string, at: nat)
    requires at < |s| && s[at] == '@'
    requires forall i :: at < i < |s| ==> s[i] != '.'
    ensures !MatchesEmailRegex(s)
  {
  }

  // ---------------------------------------------------------------------
  // validation (lines 5-22)

  const EventIdRequired := "Event ID is required"
  const EmailRequired := "Email is required"
  const EmailMalformed := "Please enter a valid email address"

  /** The first failing validator of a path, if any; `required` runs before
      the custom validator. */
  function PathError(b: Booking, p: BookingPath): Option<string> {
    match p
    case EventId => if b.eventId.None? then Some(EventIdRequired) else None
    case Email =>
      if b.email == "" then Some(EmailRequired)
      else if !MatchesEmailRegex(b.email) then Some(EmailMalformed)
      else None
  }

  function ErrorAt(b: Booking, p: BookingPath): seq<FieldError<BookingPath>> {
    match PathError(b, p)
    case Some(m) => [FieldError(p, m)]
    case None => []
  }

  /** The errors of `validate()`, in path order. */
  function ValidationErrors(b: Booking): seq<FieldError<BookingPath>> {
    ErrorAt(b, EventId) + ErrorAt(b, Email)
  }

  /** What a storable booking is: it names an event and carries a
      well-formed address. */
  predicate IsValid(b: Booking) {
    b.eventId.Some? && IsValidEmail(b.email)
  }

  /** Validation reports nothing exactly when the booking is storable. */
  lemma ValidationMatchesConstraints(b: Booking)
    ensures ValidationErrors(b) == [] <==> IsValid(b)
  {
    EmailRegexIff(b.email);
  }

  /** Each reported error is the failing validator of its path, and every
      failing path is reported, once, in schema order. */
  lemma ValidationReportsFailures(b: Booking)
    ensures forall p, m :: FieldError(p, m) in ValidationErrors(b) <==> PathError(b, p) == Some(m)
    ensures |ValidationErrors(b)| <= 2
    ensures |ValidationErrors(b)| == 2 ==> ValidationErrors(b)[0].path == EventId && ValidationErrors(b)[1].path == Email
  {
  }

  /** A booking without an event is refused as required, whatever its email. */
  lemma MissingEventIdRequired(b: Booking)
    requires b.eventId.None?
    ensures ValidationErrors(b) != [] && ValidationErrors(b)[0] == FieldError(EventId, EventIdRequired)
  {
  }

  // ---------------------------------------------------------------------
  // the pre-save hook (lines 32-53)

  /** What `Event.findById(id)` comes back with: a document, `null`, or a
      thrown error (a malformed id, a database failure). */
  datatype LookupOutcome = Found | NotFound | LookupError

  const EventMissing := JsError("ValidationError", "Event does not exist")
  const LookupFailed := JsError("ValidationError", "Invalid event ID format or database error")

  /** The single value the hook passes to `next`. */
  function HookDecision(isNew: bool, eventIdModified: bool, outcome: LookupOutcome): Signal {
    if eventIdModified || isNew then
      match outcome
      case Found => Proceed
      case NotFound => Fail(EventMissing)
      case LookupError => Fail(LookupFailed)
    else Proceed
  }

  /** The hook lets a save proceed exactly when the event was not looked up,
      or was found; a missing event and a failed lookup give the two
      distinct `ValidationError`s. */
  lemma HookDecisionSpec(isNew: bool, eventIdModified: bool, outcome: LookupOutcome)
    ensures HookDecision(isNew, eventIdModified, outcome).Proceed? <==>
      !(eventIdModified || isNew) || outcome == Found
    ensures (eventIdModified || isNew) && outcome == NotFound ==>
      HookDecision(isNew, eventIdModified, outcome) == Fail(JsError("ValidationError", "Event does not exist"))
    ensures (eventIdModified || isNew) && outcome == LookupError ==>
      HookDecision(isNew, eventIdModified, outcome) == Fail(JsError("ValidationError", "Invalid event ID format or database error"))
    ensures EventMissing.message != LookupFailed.message
  {
    assert EventMissing.message[0] != LookupFailed.message[0];
  }

  function AssignedPaths(b: Booking): set<BookingPath> {
    (if b.eventId.Some? then {EventId} else {}) + (if b.email != "" then {Email} else {})
  }

  class BookingDocument {
    var eventId: Option<ObjectId>
    var email: string
    var isNew: bool
    var modified: set<BookingPath>

    function Fields(): Booking
      reads this
    {
      Booking(eventId, email)
    }

    /** `new Booking(raw)`: the setters run on the given values and the
        document is new. */
    constructor (raw: Booking)
      ensures Fields() == ApplySetters(raw) && isNew && modified == AssignedPaths(ApplySetters(raw))
    {
      eventId, email := raw.eventId, NormalizeEmail(raw.email);
      isNew, modified := true, AssignedPaths(ApplySetters(raw));
    }

    /** `booking.email = v` on a stored document: the setters rewrite the
        value, and the path is marked modified when the stored value
        changes. */
    method AssignEmail(v: string)
      modifies this`email, this`modified
      ensures email == NormalizeEmail(v)
      ensures modified == if old(email) == NormalizeEmail(v) then old(modified) else old(modified) + {Email}
    {
      var n := NormalizeEmail(v);
      if email != n {
        modified := modified + {Email};
      }
      email := n;
    }

    /** `booking.eventId = id` on a stored document: the path is marked
        modified when the id changes. */
    method AssignEventId(id: Option<ObjectId>)
      modifies this`eventId, this`modified
      ensures eventId == id
      ensures modified == if old(eventId) == id then old(modified) else old(modified) + {EventId}
    {
      if eventId != id {
        modified := modified + {EventId};
      }
      eventId := id;
    }

    /** `bookingSchema.pre('save', ...)` against `find`, the outcome of
        `Event.findById` for each id. Returns every value passed to `next`
        and every id looked up; the document itself is not changed. */
    method PreSave(find: Option<ObjectId> -> LookupOutcome) returns (calls: seq<Signal>, lookups: seq<Option<ObjectId>>)
      ensures |calls| == 1 && calls[0] == HookDecision(isNew, EventId in modified, find(eventId))
      ensures lookups == if EventId in modified || isNew then [eventId] else []
    {
      var id0, isNew0, modified0 := eventId, isNew, modified;
      calls, lookups := [], [];
      if EventId in modified0 || isNew0 {
        lookups := lookups + [id0];
        var outcome := find(id0);
        match outcome
        case NotFound =>
          calls := calls + [Fail(EventMissing)];
          return;
        case LookupError =>
          calls := calls + [Fail(LookupFailed)];
          return;
        case Found =>
      }
      calls := calls + [Proceed];
    }
  }

  /** An unchanged, already stored booking is saved without a lookup. */
  lemma ResaveSkipsLookup(isNew: bool, modified: set<BookingPath>, outcome: LookupOutcome)
    requires !isNew && EventId !in modified
    ensures HookDecision(isNew, EventId in modified, outcome) == Proceed
  {
  }

  // ---------------------------------------------------------------------
  // saving a new booking

  /** `new Booking(raw).save()` against the bookings stored so far: setters,
      validation, the hook with the lookup `find`, then the write. No index
      on this collection is unique. */
  function SaveNewBooking(bookings: seq<Booking>, raw: Booking, find: Option<ObjectId> -> LookupOutcome): SaveOutcome<Booking, BookingPath> {
    var b := ApplySetters(raw);
    var errs := ValidationErrors(b);
    if errs != [] then Rejected(bookings, Invalid(errs))
    else match HookDecision(true, EventId in AssignedPaths(b), find(b.eventId))
      case Fail(err) => Rejected(bookings, HookFailed(err))
      case Proceed => Saved(bookings + [b])
  }

  /** A booking is stored exactly when it names an existing event and its
      normalised address is well formed; it is stored normalised and
      appended; otherwise the collection is unchanged and the reason is the
      one of the first stage that refused. */
  lemma SaveNewBookingSound(bookings: seq<Booking>, raw: Booking, find: Option<ObjectId> -> LookupOutcome)
    ensures var r := SaveNewBooking(bookings, raw, find);
      && (r.Saved? <==> raw.eventId.Some? && IsValidEmail(NormalizeEmail(raw.email)) && find(raw.eventId) == Found)
      && (r.Saved? ==> r.stored == bookings + [Booking(raw.eventId, NormalizeEmail(raw.email))])
      && (r.Rejected? ==> r.kept == bookings)
      && (r.Rejected? && r.reason.Invalid? <==> !IsValid(ApplySetters(raw)))
      && (IsValid(ApplySetters(raw)) && find(raw.eventId) == NotFound ==> r.reason == HookFailed(EventMissing))
      && (IsValid(ApplySetters(raw)) && find(raw.eventId) == LookupError ==> r.reason == HookFailed(LookupFailed))
  {
    ValidationMatchesConstraints(ApplySetters(raw));
  }

  /** A booking without an event never reaches the lookup. */
  lemma SaveWithoutEventIdRefused(bookings: seq<Booking>, raw: Booking, find: Option<ObjectId> -> LookupOutcome)
    requires raw.eventId.None?
    ensures var r := SaveNewBooking(bookings, raw, find);
      r.Rejected? && r.reason.Invalid? && r.reason.errors[0] == FieldError(EventId, "Event ID is required")
  {
    MissingEventIdRequired(ApplySetters(raw));
  }

  // ---------------------------------------------------------------------
  // the lookup as written

  /** `Event` is not imported by the module, so `Event.findById` is not the
      event model's lookup and every call throws; the hook's catch turns that
      into its second error whatever the id. */
  function AsWrittenLookup(id: Option<ObjectId>): LookupOutcome {
    LookupError
  }

  /** As written, a valid booking for an event that exists is refused with
      the lookup error, where the intended lookup stores it. */
  lemma AsWrittenRefusesExistingEvent(bookings: seq<Booking>, raw: Booking, find: Option<ObjectId> -> LookupOutcome)
    requires raw.eventId.Some? && IsValidEmail(NormalizeEmail(raw.email)) && find(raw.eventId) == Found
    ensures SaveNewBooking(bookings, raw, find).Saved?
    ensures SaveNewBooking(bookings, raw, AsWrittenLookup) == Rejected(bookings, HookFailed(LookupFailed))
  {
    SaveNewBookingSound(bookings, raw, find);
    SaveNewBookingSound(bookings, raw, AsWrittenLookup);
  }

  /** For instance `" Ada@Example.COM "` for an event that the lookup finds. */
  const ExampleBooking := Booking(Some(ObjectId("665f1c2e9b1e8a3d4c5b6a79")), " Ada@Example.COM ")

  lemma AsWrittenExample()
    ensures SaveNewBooking([], ExampleBooking, _ => Found) == Saved([ExampleBooking.(email := "ada@example.com")])
    ensures SaveNewBooking([], ExampleBooking, AsWrittenLookup) == Rejected([], HookFailed(LookupFailed))
  {
    ExampleStored();
    ExampleAddress();
    AsWrittenRefusesExistingEvent([], ExampleBooking, _ => Found);
  }

  lemma ExampleStored()
    ensures SaveNewBooking([], ExampleBooking, _ => Found) == Saved([ExampleBooking.(email := "ada@example.com")])
  {
    ExampleAddress();
    SaveNewBookingSound([], ExampleBooking, _ => Found);
  }

  /** The example address is stored as `"ada@example.com"`, which is well formed. */
  lemma ExampleAddress()
    ensures NormalizeEmail(" Ada@Example.COM ") == "ada@example.com"
    ensures IsValidEmail("ada@example.com")
  {
    ExampleTrimmed();
    ExampleLowered();
    ExampleWellFormed();
  }

  lemma ExampleLowered()
    ensures LowerAscii("Ada@Example.COM") == "ada@example.com"
  {
    var w := "Ada@Example.COM";
    assert w[0] == 'A' && w[4] == 'E' && w[12] == 'C' && w[13] == 'O' && w[14] == 'M';
  }

  lemma ExampleTrimmed()
    ensures Trim(" Ada@Example.COM ") == "Ada@Example.COM"
  {
    var v := " Ada@Example.COM ";
    var w := v[1..];
    assert IsJsWhitespace(v[0]) && !IsJsWhitespace(w[0]);
    assert TrimStart(v) == TrimStart(w) == w;
    assert IsJsWhitespace(w[|w| - 1]) && w[..|w| - 1] == "Ada@Example.COM";
    assert !IsJsWhitespace(w[|w| - 2]);
  }

  lemma ExampleWellFormed()
    ensures IsValidEmail("ada@example.com")
  {
    var s := "ada@example.com";
    assert s[3] == '@' && s[11] == '.';
    assert s[..3] == "ada" && s[4..11] == "example" && s[12..] == "com";
    assert AllAddressChars("ada") && AllAddressChars("example") && AllAddressChars("com");
    MatchIsValid(s, 3, 11);
  }
}
