/** The event record of src/database/event.model.js: the schema's setters
    and validators (lines 6-86), the `pre('save')` hook (95-114) and the
    unique index on `slug` (14, 147), composed into the save of a new event
    in the order Mongoose runs them: setters on assignment, validation, the
    hook, then the write that the unique index may refuse. */
module EventModel {
  import opened Wrappers
  import opened Middleware
  import opened Text
  import opened Slugify
  import opened DateTime

  /** An event document. A string path that was never given a value is
      `""` and an array path `[]`, which is how the validators see them. */
  datatype Event = Event(
    title: string,
    slug: string,
    description: string,
    overview: string,
    image: string,
    venue: string,
    location: string,
    date: string,
    time: string,
    mode: string,
    audience: string,
    agenda: seq<string>,
    organizer: string,
    tags: seq<string>)

  // ---------------------------------------------------------------------
  // Setters

  /** The `lowercase` and `trim` setters of `slug`. */
  function SlugSetter(s: string): string {
    Trim(LowerAscii(s))
  }

  /** The slug setters leave a trimmed string with no upper-case letter. */
  lemma SlugSetterNormalises(s: string)
    ensures IsTrimmed(SlugSetter(s)) && NoUpperAscii(SlugSetter(s))
  {
    LowerAsciiNormalises(Trim(s));
    TrimLowerCommute(s);
    TrimSpec(LowerAscii(s));
  }

  /** What a document holds after its fields are assigned: every path
      declared with `trim: true` is trimmed, `slug` is also lower-cased, and
      `date`, `time`, `mode`, `agenda` and `tags` are stored as given. */
  function ApplySetters(raw: Event): Event {
    raw.(
      title := Trim(raw.title),
      slug := SlugSetter(raw.slug),
      description := Trim(raw.description),
      overview := Trim(raw.overview),
      image := Trim(raw.image),
      venue := Trim(raw.venue),
      location := Trim(raw.location),
      audience := Trim(raw.audience),
      organizer := Trim(raw.organizer))
  }

  /** The paths with setters hold values those setters have normalised. */
  predicate SettersApplied(e: Event) {
    && IsTrimmed(e.title) && IsTrimmed(e.slug) && NoUpperAscii(e.slug)
    && IsTrimmed(e.description) && IsTrimmed(e.overview) && IsTrimmed(e.image)
    && IsTrimmed(e.venue) && IsTrimmed(e.location) && IsTrimmed(e.audience)
    && IsTrimmed(e.organizer)
  }

  /** After assignment every path with a setter holds a normalised value,
      and the paths without one hold what was assigned. */
  lemma SettersNormalise(raw: Event)
    ensures var e := ApplySetters(raw);
      && SettersApplied(e)
      && e.date == raw.date && e.time == raw.time && e.mode == raw.mode
      && e.agenda == raw.agenda && e.tags == raw.tags
  {
    TrimSpec(raw.title);
    SlugSetterNormalises(raw.slug);
    TrimSpec(raw.description);
    TrimSpec(raw.overview);
    TrimSpec(raw.image);
    TrimSpec(raw.venue);
    TrimSpec(raw.location);
    TrimSpec(raw.audience);
    TrimSpec(raw.organizer);
  }

  /** Assigning the stored values again changes nothing. */
  lemma SettersIdempotent(raw: Event)
    ensures ApplySetters(ApplySetters(raw)) == ApplySetters(raw)
  {
    var e := ApplySetters(raw);
    SettersNormalise(raw);
    TrimOfTrimmed(e.title);
    TrimOfTrimmed(e.description);
    TrimOfTrimmed(e.overview);
    TrimOfTrimmed(e.image);
    TrimOfTrimmed(e.venue);
    TrimOfTrimmed(e.location);
    TrimOfTrimmed(e.audience);
    TrimOfTrimmed(e.organizer);
    SlugSetterOfNormal(e.slug);
  }

  /** A lower-case, trimmed string passes the slug setters unchanged. */
  lemma SlugSetterOfNormal(s: string)
    requires IsTrimmed(s) && NoUpperAscii(s)
    ensures SlugSetter(s) == s
  {
    LowerAsciiNormalises(s);
    TrimOfTrimmed(s);
  }

  /** So a generated slug is stored exactly as `generateSlug` returned it. */
  lemma SlugSetterOfGenerated(title: string)
    ensures SlugSetter(GenerateSlug(title)) == GenerateSlug(title)
  {
    SlugShape(title);
    SlugSetterOfSlugShaped(GenerateSlug(title));
  }

  lemma SlugSetterOfSlugShaped(g: string)
    requires IsSlugShaped(g)
    ensures SlugSetter(g) == g
  {
    SlugShapedIsLowerTrimmed(g);
    SlugSetterOfNormal(g);
  }

  // ---------------------------------------------------------------------
  // Validation

  /** The paths of the schema. */
  datatype Path =
    | Title | Slug | Description | Overview | Image | Venue | Location
    | Date | Time | Mode | Audience | Agenda | Organizer | Tags

  /** The position of each path in the schema. */
  function PathIndex(p: Path): nat {
    match p
    case Title => 0 case Slug => 1 case Description => 2 case Overview => 3
    case Image => 4 case Venue => 5 case Location => 6 case Date => 7
    case Time => 8 case Mode => 9 case Audience => 10 case Agenda => 11
    case Organizer => 12 case Tags => 13
  }

  /** The paths in the order the schema declares them, which is the order
      in which validation reports them. */
  const Schema: seq<Path> :=
    [Title, Slug, Description, Overview, Image, Venue, Location,
     Date, Time, Mode, Audience, Agenda, Organizer, Tags]

  /** `Schema` lists every path once, in increasing position. */
  lemma SchemaInOrder()
    ensures forall p: Path :: p in Schema
    ensures forall i, j :: 0 <= i < j < |Schema| ==> PathIndex(Schema[i]) < PathIndex(Schema[j])
  {
    assert forall i :: 0 <= i < |Schema| ==> PathIndex(Schema[i]) == i;
    forall p: Path
      ensures p in Schema
    {
      assert Schema[PathIndex(p)] == p;
    }
  }

  const Modes: seq<string> := ["online", "offline", "hybrid"]

  /** The message of the first validator of `path` that `e` fails: `required`
      first (an empty string or a missing value), then `maxlength`, `enum` or
      the custom non-empty validator. An array path always passes `required`,
      since a missing array is stored as `[]`; `slug` has no validator. */
  function PathError(e: Event, path: Path): Option<string> {
    match path
    case Title =>
      if e.title == "" then Some("Title is required")
      else if |e.title| > 100 then Some("Title cannot exceed 100 characters")
      else None
    case Slug => None
    case Description =>
      if e.description == "" then Some("Description is required")
      else if |e.description| > 1000 then Some("Description cannot exceed 500 characters")
      else None
    case Overview =>
      if e.overview == "" then Some("Overview is required")
      else if |e.overview| > 500 then Some("Overview cannot exceed 500 characters")
      else None
    case Image => Required(e.image, "Image URL is required")
    case Venue => Required(e.venue, "Venue is required")
    case Location => Required(e.location, "Location is required")
    case Date => Required(e.date, "Date is required")
    case Time => Required(e.time, "Time is required")
    case Mode =>
      if e.mode == "" then Some("Mode is required")
      else if e.mode !in Modes then Some("Mode must be either online, offline, or hybrid")
      else None
    case Audience => Required(e.audience, "Audience is required")
    case Agenda => if |e.agenda| == 0 then Some("Agenda must have at least one item") else None
    case Organizer => Required(e.organizer, "Organizer is required")
    case Tags => if |e.tags| == 0 then Some("Tags must have at least one item") else None
  }

  function Required(v: string, message: string): Option<string> {
    if v == "" then Some(message) else None
  }

  /** The errors of `validate()`: one per failing path, in schema order. */
  function ValidationErrors(e: Event): seq<FieldError<Path>> {
    ErrorsOf(p => PathError(e, p), Schema)
  }

  /** The errors that `check` gives for the paths `ps`, in their order. */
  function ErrorsOf(check: Path -> Option<string>, ps: seq<Path>): seq<FieldError<Path>>
    decreases |ps|
  {
    if ps == [] then []
    else
      var here := if check(ps[0]).Some? then [FieldError(ps[0], check(ps[0]).value)] else [];
      here + ErrorsOf(check, ps[1..])
  }

  /** The errors are exactly the failing paths, each with its message. */
  lemma {:induction false} ErrorsOfMembers(check: Path -> Option<string>, ps: seq<Path>)
    ensures forall p, m :: FieldError(p, m) in ErrorsOf(check, ps) <==> p in ps && check(p) == Some(m)
    decreases |ps|
  {
    if ps != [] {
      ErrorsOfMembers(check, ps[1..]);
      assert forall p :: p in ps <==> p == ps[0] || p in ps[1..];
    }
  }

  /** When `ps` is in increasing `rank`, so are the paths of the errors. */
  lemma {:induction false} ErrorsOfOrdered(check: Path -> Option<string>, ps: seq<Path>, rank: Path -> nat)
    requires forall i, j :: 0 <= i < j < |ps| ==> rank(ps[i]) < rank(ps[j])
    ensures forall i, j :: 0 <= i < j < |ErrorsOf(check, ps)| ==>
      rank(ErrorsOf(check, ps)[i].path) < rank(ErrorsOf(check, ps)[j].path)
    decreases |ps|
  {
    if ps != [] {
      ErrorsOfOrdered(check, ps[1..], rank);
      FirstBelowRest(check, ps, rank);
      var here := if check(ps[0]).Some? then [FieldError(ps[0], check(ps[0]).value)] else [];
      ConsOrdered(here, ErrorsOf(check, ps[1..]), rank, ps[0]);
    }
  }

  /** The first path of an increasing `ps` ranks below every error of the rest. */
  lemma FirstBelowRest(check: Path -> Option<string>, ps: seq<Path>, rank: Path -> nat)
    requires ps != [] && forall i, j :: 0 <= i < j < |ps| ==> rank(ps[i]) < rank(ps[j])
    ensures forall i :: 0 <= i < |ErrorsOf(check, ps[1..])| ==> rank(ps[0]) < rank(ErrorsOf(check, ps[1..])[i].path)
  {
    var rest := ErrorsOf(check, ps[1..]);
    ErrorsOfMembers(check, ps[1..]);
    forall i | 0 <= i < |rest|
      ensures rank(ps[0]) < rank(rest[i].path)
    {
      assert FieldError(rest[i].path, rest[i].message) in rest;
      var k :| 0 <= k < |ps[1..]| && ps[1..][k] == rest[i].path;
      assert ps[k + 1] == rest[i].path;
    }
  }

  /** At most one error for `p`, put before errors that all rank above `p`
      and are in increasing rank, gives errors in increasing rank. */
  lemma ConsOrdered(here: seq<FieldError<Path>>, rest: seq<FieldError<Path>>, rank: Path -> nat, p: Path)
    requires |here| <= 1 && (here != [] ==> here[0].path == p)
    requires forall i :: 0 <= i < |rest| ==> rank(p) < rank(rest[i].path)
    requires forall i, j :: 0 <= i < j < |rest| ==> rank(rest[i].path) < rank(rest[j].path)
    ensures forall i, j :: 0 <= i < j < |here + rest| ==> rank((here + rest)[i].path) < rank((here + rest)[j].path)
  {
    var errs := here + rest;
    forall i, j | 0 <= i < j < |errs|
      ensures rank(errs[i].path) < rank(errs[j].path)
    {
      assert errs[j] == rest[j - |here|];
      if i < |here| {
        assert errs[i].path == p;
      } else {
        assert errs[i] == rest[i - |here|];
      }
    }
  }

  /** The constraints of the schema, stated on their own. */
  predicate IsValid(e: Event) {
    && 0 < |e.title| <= 100
    && 0 < |e.description| <= 1000
    && 0 < |e.overview| <= 500
    && e.image != "" && e.venue != "" && e.location != ""
    && e.date != "" && e.time != ""
    && e.mode in Modes
    && e.audience != "" && e.organizer != ""
    && |e.agenda| > 0 && |e.tags| > 0
  }

  /** Validation reports nothing exactly when every constraint holds. */
  lemma ValidationMatchesConstraints(e: Event)
    ensures ValidationErrors(e) == [] <==> IsValid(e)
  {
    var check := p => PathError(e, p);
    NoErrorsIffAllPass(check, Schema);
    SchemaInOrder();
    ValidIffAllPass(e);
    if ValidationErrors(e) == [] {
      forall p: Path
        ensures PathError(e, p).None?
      {
        assert p in Schema && check(p) == PathError(e, p);
      }
    } else {
      var p :| p in Schema && check(p).Some?;
      assert PathError(e, p).Some?;
    }
  }

  /** The constraints hold exactly when no path's validators fail. */
  lemma ValidIffAllPass(e: Event)
    ensures IsValid(e) <==> forall p :: PathError(e, p).None?
  {
    if IsValid(e) {
      ValidPathsPass(e);
    } else {
      var p := FirstBrokenPath(e);
    }
  }

  /** No errors exactly when every path passes its check. */
  lemma {:induction false} NoErrorsIffAllPass(check: Path -> Option<string>, ps: seq<Path>)
    ensures ErrorsOf(check, ps) == [] <==> forall p :: p in ps ==> check(p).None?
    decreases |ps|
  {
    if ps != [] {
      NoErrorsIffAllPass(check, ps[1..]);
      assert forall p :: p in ps <==> p == ps[0] || p in ps[1..];
    }
  }

  /** Every error validation reports names a schema path and the message of
      the first validator that path fails, and every failing path is
      reported. */
  lemma ValidationReportsFailures(e: Event)
    ensures forall p, m :: FieldError(p, m) in ValidationErrors(e) <==> PathError(e, p) == Some(m)
  {
    ErrorsOfMembers(p => PathError(e, p), Schema);
    SchemaInOrder();
  }

  /** A document that meets every constraint passes every validator. */
  lemma ValidPathsPass(e: Event)
    requires IsValid(e)
    ensures forall p :: PathError(e, p) == None
  {
    forall p: Path
      ensures PathError(e, p) == None
    {
    }
  }

  /** A path whose validator fails, when some constraint does not hold. */
  function FirstBrokenPath(e: Event): (p: Path)
    requires !IsValid(e)
    ensures PathError(e, p).Some?
  {
    if !(0 < |e.title| <= 100) then Title
    else if !(0 < |e.description| <= 1000) then Description
    else if !(0 < |e.overview| <= 500) then Overview
    else if e.image == "" then Image
    else if e.venue == "" then Venue
    else if e.location == "" then Location
    else if e.date == "" then Date
    else if e.time == "" then Time
    else if e.mode !in Modes then Mode
    else if e.audience == "" then Audience
    else if |e.agenda| == 0 then Agenda
    else if e.organizer == "" then Organizer
    else Tags
  }

  /** `FirstBrokenPath` is the first failing path in schema order: every
      path before it passes. */
  lemma FirstBrokenPathIsFirst(e: Event, q: Path)
    requires !IsValid(e)
    ensures PathIndex(q) < PathIndex(FirstBrokenPath(e)) ==> PathError(e, q).None?
  {
  }

  /** Each path is reported at most once. */
  lemma OneErrorPerPath(e: Event)
    ensures forall i, j :: 0 <= i < j < |ValidationErrors(e)| ==>
      ValidationErrors(e)[i].path != ValidationErrors(e)[j].path
  {
    var errs := ValidationErrors(e);
    SchemaInOrder();
    ErrorsOfOrdered(p => PathError(e, p), Schema, PathIndex);
    forall i, j | 0 <= i < j < |errs|
      ensures errs[i].path != errs[j].path
    {
      assert PathIndex(errs[i].path) < PathIndex(errs[j].path);
    }
  }

  /** The description limit is 1000 characters, although its message says
      500: a description of 1000 characters passes, and one of 1001 is
      refused with the message about 500. */
  lemma DescriptionLimit(e: Event)
    ensures |e.description| == 1000 ==> PathError(e, Description) == None
    ensures |e.description| == 1001 ==>
      PathError(e, Description) == Some("Description cannot exceed 500 characters")
  {
  }

  // ---------------------------------------------------------------------
  // The pre-save hook

  /** The parsers `new Date(...)` stands for in `normalizeDate` and
      `normalizeTime`: each gives the parsed value, or nothing for an
      invalid date. */
  datatype Parsers = Parsers(date: string -> Option<CalendarDate>, time: string -> Option<TimeOfDay>)

  /** What the hook leaves in the three paths it writes, and what it passes
      to `next`. */
  datatype HookOutput = HookOutput(slug: string, date: string, time: string, signal: Signal)

  /** The hook's steps on the paths it reads and writes. A throw from
      `normalizeDate` or `normalizeTime` ends the hook where it happens, with
      the earlier assignments already made; Mongoose passes the thrown error
      on as the hook's error. */
  function HookSteps(title: string, slug: string, date: string, time: string,
                     isNew: bool, modified: set<Path>, parsers: Parsers): HookOutput
  {
    var s := if Title in modified || isNew then SlugSetter(GenerateSlug(title)) else slug;
    var d := if Date in modified then NormalizeDate(parsers.date, date) else Success(date);
    if d.Failure? then HookOutput(s, date, time, Fail(d.error))
    else
      var t := if Time in modified then NormalizeTime(parsers.time, time) else Success(time);
      if t.Failure? then HookOutput(s, d.value, time, Fail(t.error))
      else HookOutput(s, d.value, t.value, Proceed)
  }

  /** The document after the hook, and what the hook passed to `next`. */
  datatype HookRun = HookRun(doc: Event, signal: Signal)

  /** The hook on document `e` with the given `isNew` flag and modified
      paths. */
  function PreSaveEffect(e: Event, isNew: bool, modified: set<Path>, parsers: Parsers): (r: HookRun)
    ensures r.doc == e.(slug := r.doc.slug, date := r.doc.date, time := r.doc.time)
  {
    var o := HookSteps(e.title, e.slug, e.date, e.time, isNew, modified, parsers);
    HookRun(e.(slug := o.slug, date := o.date, time := o.time), o.signal)
  }

  /** The slug is `generateSlug(title)` when the document is new or its
      title changed, and is left alone otherwise. */
  lemma PreSaveSlug(e: Event, isNew: bool, modified: set<Path>, parsers: Parsers)
    ensures PreSaveEffect(e, isNew, modified, parsers).doc.slug ==
      if Title in modified || isNew then GenerateSlug(e.title) else e.slug
  {
    HookSlug(e.title, e.slug, e.date, e.time, isNew, modified, parsers);
    SlugSetterOfGenerated(e.title);
  }

  lemma HookSlug(title: string, slug: string, date: string, time: string,
                 isNew: bool, modified: set<Path>, parsers: Parsers)
    ensures HookSteps(title, slug, date, time, isNew, modified, parsers).slug ==
      if Title in modified || isNew then SlugSetter(GenerateSlug(title)) else slug
  {
  }

  /** `date` and `time` change only when modified. */
  lemma PreSaveUnmodified(e: Event, isNew: bool, modified: set<Path>, parsers: Parsers)
    ensures Date !in modified ==> PreSaveEffect(e, isNew, modified, parsers).doc.date == e.date
    ensures Time !in modified ==> PreSaveEffect(e, isNew, modified, parsers).doc.time == e.time
  {
  }

  /** When the hook reaches `next()`, a modified `date` and a modified
      `time` hold what the helpers returned for them. */
  lemma PreSaveNormalised(e: Event, isNew: bool, modified: set<Path>, parsers: Parsers)
    ensures var r := PreSaveEffect(e, isNew, modified, parsers);
      && (r.signal.Proceed? && Date in modified ==> r.doc.date == NormalizeDate(parsers.date, e.date).value)
      && (r.signal.Proceed? && Time in modified ==> r.doc.time == NormalizeTime(parsers.time, e.time).value)
  {
  }

  /** The hook fails exactly when a modified `date` or `time` does not
      parse; the date is examined first. A failure leaves `time` as it was,
      and `date` too when the date was the cause; a time failure comes after
      `date` has already been normalised. */
  lemma PreSaveFailure(e: Event, isNew: bool, modified: set<Path>, parsers: Parsers)
    ensures var r := PreSaveEffect(e, isNew, modified, parsers);
      var badDate := Date in modified && parsers.date(e.date).None?;
      var badTime := Time in modified && parsers.time(e.time).None?;
      && (r.signal.Fail? <==> badDate || badTime)
      && (badDate ==> r.signal == Fail(InvalidDate))
      && (!badDate && badTime ==> r.signal == Fail(InvalidTime))
      && (r.signal.Fail? ==> r.doc.time == e.time)
      && (badDate ==> r.doc.date == e.date)
      && (!badDate && badTime ==> r.doc.date == if Date in modified then NormalizeDate(parsers.date, e.date).value else e.date)
  {
  }

  /** After a successful hook a modified `date` has the `YYYY-MM-DD` form
      whenever its year is in 0..9999, and a modified `time` the `HH:MM`
      form, each reading back as the parsed value. */
  lemma PreSaveCanonical(e: Event, isNew: bool, modified: set<Path>, parsers: Parsers)
    ensures var r := PreSaveEffect(e, isNew, modified, parsers);
      && (r.signal.Proceed? && Date in modified && 0 <= parsers.date(e.date).value.year <= 9999 ==>
            IsIsoDate(r.doc.date) && ParseIsoDate(r.doc.date) == parsers.date(e.date).value)
      && (r.signal.Proceed? && Time in modified ==>
            IsHHMM(r.doc.time) && ParseHHMM(r.doc.time) == parsers.time(e.time).value)
  {
    PreSaveNormalised(e, isNew, modified, parsers);
    NormalizeDateCanonical(parsers.date, e.date);
    NormalizeTimeCanonical(parsers.time, e.time);
  }

  /** Saving a stored document again when neither `title`, `date` nor
      `time` was modified (say only `description` changed) runs the hook to
      `next()` and changes nothing. */
  lemma ResaveUnchanged(e: Event, modified: set<Path>, parsers: Parsers)
    requires Title !in modified && Date !in modified && Time !in modified
    ensures PreSaveEffect(e, false, modified, parsers) == HookRun(e, Proceed)
  {
  }

  /** An event document as the hook sees it: its paths, whether it has never
      been saved, and which paths were assigned since it was loaded. */
  class EventDocument {
    var title: string
    var slug: string
    var description: string
    var overview: string
    var image: string
    var venue: string
    var location: string
    var date: string
    var time: string
    var mode: string
    var audience: string
    var agenda: seq<string>
    var organizer: string
    var tags: seq<string>
    var isNew: bool
    var modified: set<Path>

    function Fields(): Event
      reads this
    {
      Event(title, slug, description, overview, image, venue, location, date, time,
            mode, audience, agenda, organizer, tags)
    }

    constructor (e: Event, isNew: bool, modified: set<Path>)
      ensures Fields() == e && this.isNew == isNew && this.modified == modified
    {
      title, slug, description, overview := e.title, e.slug, e.description, e.overview;
      image, venue, location := e.image, e.venue, e.location;
      date, time, mode, audience := e.date, e.time, e.mode, e.audience;
      agenda, organizer, tags := e.agenda, e.organizer, e.tags;
      this.isNew, this.modified := isNew, modified;
    }

    /** `eventSchema.pre('save', ...)`: updates `slug`, `date` and `time` in
        place, stopping at the first helper that throws, and returns what the
        hook passes to `next`. */
    method PreSave(parsers: Parsers) returns (signal: Signal)
      modifies this`slug, this`date, this`time
      ensures var o := HookSteps(old(title), old(slug), old(date), old(time), old(isNew), old(modified), parsers);
        slug == o.slug && date == o.date && time == o.time && signal == o.signal
    {
      var title0, date0, time0, isNew0, modified0 := title, date, time, isNew, modified;
      if Title in modified0 || isNew0 {
        slug := SlugSetter(GenerateSlug(title0));
      }
      if Date in modified0 {
        var d := NormalizeDate(parsers.date, date0);
        if d.Failure? {
          return Fail(d.error);
        }
        date := d.value;
      }
      if Time in modified0 {
        var t := NormalizeTime(parsers.time, time0);
        if t.Failure? {
          return Fail(t.error);
        }
        time := t.value;
      }
      signal := Proceed;
    }
  }

  // ---------------------------------------------------------------------
  // The unique index on `slug`, and the save of a new event

  predicate UniqueSlugs(events: seq<Event>) {
    forall i, j :: 0 <= i < j < |events| ==> events[i].slug != events[j].slug
  }

  predicate HasSlug(events: seq<Event>, slug: string) {
    exists i :: 0 <= i < |events| && events[i].slug == slug
  }

  /** The write of a new document under the unique index on `slug`: refused
      with a duplicate-key error when another stored event has that slug,
      appended otherwise. */
  function InsertEvent(events: seq<Event>, e: Event): (r: Result<seq<Event>, SaveError<Path>>)
    ensures r.Failure? <==> HasSlug(events, e.slug)
    ensures r.Failure? ==> r.error == DuplicateKey(Slug, e.slug)
    ensures r.Success? ==> r.value == events + [e]
    ensures r.Success? && UniqueSlugs(events) ==> UniqueSlugs(r.value)
  {
    if HasSlug(events, e.slug) then Failure(DuplicateKey(Slug, e.slug))
    else Success(events + [e])
  }

  /** The paths a freshly built document counts as modified: those given a
      value. */
  function AssignedPaths(e: Event): set<Path> {
    (if e.title != "" then {Title} else {})
    + (if e.slug != "" then {Slug} else {})
    + (if e.description != "" then {Description} else {})
    + (if e.overview != "" then {Overview} else {})
    + (if e.image != "" then {Image} else {})
    + (if e.venue != "" then {Venue} else {})
    + (if e.location != "" then {Location} else {})
    + (if e.date != "" then {Date} else {})
    + (if e.time != "" then {Time} else {})
    + (if e.mode != "" then {Mode} else {})
    + (if e.audience != "" then {Audience} else {})
    + (if e.agenda != [] then {Agenda} else {})
    + (if e.organizer != "" then {Organizer} else {})
    + (if e.tags != [] then {Tags} else {})
  }

  /** `new Event(raw).save()` against the stored `events`: the setters run
      on assignment, then validation, then the pre-save hook, then the
      write. */
  function SaveNewEvent(events: seq<Event>, raw: Event, parsers: Parsers): SaveOutcome<Event, Path> {
    var e := ApplySetters(raw);
    var errs := ValidationErrors(e);
    if errs != [] then Rejected(events, Invalid(errs))
    else Commit(events, PreSaveEffect(e, true, AssignedPaths(e), parsers))
  }

  /** What follows a hook run: its error, or the write of its document. */
  function Commit(events: seq<Event>, run: HookRun): (r: SaveOutcome<Event, Path>)
    ensures r.Rejected? ==> r.kept == events
    ensures r.Saved? <==> run.signal.Proceed? && !HasSlug(events, run.doc.slug)
    ensures r.Saved? ==> r.stored == events + [run.doc]
    ensures run.signal.Fail? ==> r == Rejected(events, HookFailed(run.signal.error))
    ensures run.signal.Proceed? && HasSlug(events, run.doc.slug) ==>
      r == Rejected(events, DuplicateKey(Slug, run.doc.slug))
    ensures UniqueSlugs(events) ==> UniqueSlugs(r.Collection())
  {
    if run.signal.Fail? then Rejected(events, HookFailed(run.signal.error))
    else
      match InsertEvent(events, run.doc)
      case Failure(err) => Rejected(events, err)
      case Success(stored) => Saved(stored)
  }

  /** A failed save leaves the collection as it was; a save is refused by
      validation exactly when the document after its setters breaks a schema
      constraint; a save succeeds exactly when that document is valid, its
      date and time parse and no stored event has the slug of its title; and
      a successful save appends that document with the slug of its title and
      its date and time normalised, which meets every constraint. */
  lemma SaveNewEventSound(events: seq<Event>, raw: Event, parsers: Parsers)
    ensures var r := SaveNewEvent(events, raw, parsers);
      && (r.Rejected? ==> r.kept == events)
      && (r.Rejected? && r.reason.Invalid? <==> !IsValid(ApplySetters(raw)))
      && (r.Saved? ==> r.stored[..|events|] == events && |r.stored| == |events| + 1)
      && (r.Saved? ==> IsValid(Last(r.stored)) && Last(r.stored).slug == GenerateSlug(raw.title))
    ensures var e := ApplySetters(raw);
      SaveNewEvent(events, raw, parsers).Saved? <==>
        && IsValid(e) && parsers.date(e.date).Some? && parsers.time(e.time).Some?
        && !HasSlug(events, GenerateSlug(raw.title))
    ensures var e := ApplySetters(raw); var r := SaveNewEvent(events, raw, parsers);
      r.Saved? && parsers.date(e.date).Some? && parsers.time(e.time).Some? ==>
        r.stored == events + [e.(slug := GenerateSlug(raw.title),
                                 date := IsoDate(parsers.date(e.date).value),
                                 time := HHMM(parsers.time(e.time).value))]
  {
    var e := ApplySetters(raw);
    var m := AssignedPaths(e);
    var run := PreSaveEffect(e, true, m, parsers);
    var parsed := parsers.date(e.date).Some? && parsers.time(e.time).Some?;
    ValidationMatchesConstraints(e);
    SlugOfTrimmedTitle(raw.title);
    PreSaveSlug(e, true, m, parsers);
    if IsValid(e) {
      PreSaveKeepsValid(e, true, m, parsers);
      DateTimeAssigned(e);
      HookParses(e, true, m, parsers);
    }
    StagesSound(events, e, ValidationErrors(e), run, GenerateSlug(raw.title));
    StagesIff(events, e, ValidationErrors(e), run, GenerateSlug(raw.title), parsed);
    if IsValid(e) && parsed {
      var doc := e.(slug := GenerateSlug(raw.title),
                    date := IsoDate(parsers.date(e.date).value),
                    time := HHMM(parsers.time(e.time).value));
      assert run.doc == doc;
      StagesStored(events, ValidationErrors(e), run, doc);
    }
  }

  /** A valid document has a non-empty `date` and `time`, so a new document
      counts both as modified. */
  lemma DateTimeAssigned(e: Event)
    requires IsValid(e)
    ensures Date in AssignedPaths(e) && Time in AssignedPaths(e)
  {
  }

  /** With `date` and `time` both modified, the hook proceeds exactly when
      both parse, and then stores their normal forms. */
  lemma HookParses(e: Event, isNew: bool, modified: set<Path>, parsers: Parsers)
    requires Date in modified && Time in modified
    ensures var r := PreSaveEffect(e, isNew, modified, parsers);
      r.signal.Proceed? <==> parsers.date(e.date).Some? && parsers.time(e.time).Some?
    ensures var r := PreSaveEffect(e, isNew, modified, parsers);
      r.signal.Proceed? ==>
        r.doc.date == IsoDate(parsers.date(e.date).value) && r.doc.time == HHMM(parsers.time(e.time).value)
  {
    PreSaveFailure(e, isNew, modified, parsers);
    PreSaveNormalised(e, isNew, modified, parsers);
  }

  /** When the save succeeds, on the stages' results: validation passed, the
      hook proceeded, and the slug is free. */
  lemma StagesIff(events: seq<Event>, e: Event, errs: seq<FieldError<Path>>, run: HookRun, slug: string,
                  parsed: bool)
    requires errs == [] <==> IsValid(e)
    requires IsValid(e) ==> (run.signal.Proceed? <==> parsed)
    requires run.doc.slug == slug
    ensures var r := if errs != [] then Rejected(events, Invalid(errs)) else Commit(events, run);
      r.Saved? <==> IsValid(e) && parsed && !HasSlug(events, slug)
  {
  }

  /** What a successful save stores, on the stages' results. */
  lemma StagesStored(events: seq<Event>, errs: seq<FieldError<Path>>, run: HookRun, doc: Event)
    requires run.doc == doc
    ensures var r := if errs != [] then Rejected(events, Invalid(errs)) else Commit(events, run);
      r.Saved? ==> r.stored == events + [doc]
  {
  }

  /** The save's stages, put together on their results. */
  lemma StagesSound(events: seq<Event>, e: Event, errs: seq<FieldError<Path>>, run: HookRun, slug: string)
    requires errs == [] <==> IsValid(e)
    requires IsValid(e) && run.signal.Proceed? ==> IsValid(run.doc)
    requires run.doc.slug == slug
    ensures var r := if errs != [] then Rejected(events, Invalid(errs)) else Commit(events, run);
      && (r.Rejected? ==> r.kept == events)
      && (r.Rejected? && r.reason.Invalid? <==> !IsValid(e))
      && (r.Saved? ==> r.stored[..|events|] == events && |r.stored| == |events| + 1)
      && (r.Saved? ==> IsValid(Last(r.stored)) && Last(r.stored).slug == slug)
  {
    if errs == [] {
      var r := Commit(events, run);
      if r.Saved? {
        assert r.stored[..|events|] == events;
        assert Last(r.stored) == run.doc;
      }
    }
  }

  /** Saves keep the slugs of the collection unique. */
  lemma SaveNewEventUnique(events: seq<Event>, raw: Event, parsers: Parsers)
    requires UniqueSlugs(events)
    ensures UniqueSlugs(SaveNewEvent(events, raw, parsers).Collection())
  {
  }

  function Last(events: seq<Event>): Event
    requires events != []
  {
    events[|events| - 1]
  }

  /** The setter trims the title before the hook reads it, which does not
      change its slug. */
  lemma SlugOfTrimmedTitle(title: string)
    ensures GenerateSlug(Trim(title)) == GenerateSlug(title)
  {
    TrimLowerCommute(title);
    TrimIdempotent(title);
    TrimLowerCommute(Trim(title));
  }

  /** A successful hook leaves a valid document valid: it rewrites `date`
      and `time` only with non-empty normal forms. */
  lemma PreSaveKeepsValid(e: Event, isNew: bool, modified: set<Path>, parsers: Parsers)
    requires IsValid(e)
    ensures var r := PreSaveEffect(e, isNew, modified, parsers);
      r.signal.Proceed? ==> IsValid(r.doc)
  {
    var r := PreSaveEffect(e, isNew, modified, parsers);
    if r.signal.Proceed? {
      PreSaveUnmodified(e, isNew, modified, parsers);
      PreSaveNormalised(e, isNew, modified, parsers);
      NormalizedDateNonEmpty(parsers.date, e.date);
      NormalizedTimeNonEmpty(parsers.time, e.time);
      ValidWithDateTime(e, r.doc.slug, r.doc.date, r.doc.time);
    }
  }

  /** `slug` is not constrained, and `date` and `time` only need to be non-empty. */
  lemma ValidWithDateTime(e: Event, slug: string, date: string, time: string)
    requires IsValid(e) && date != "" && time != ""
    ensures IsValid(e.(slug := slug, date := date, time := time))
  {
  }

  lemma NormalizedDateNonEmpty(parseDate: string -> Option<CalendarDate>, s: string)
    ensures NormalizeDate(parseDate, s).Success? ==> NormalizeDate(parseDate, s).value != ""
  {
    if parseDate(s).Some? {
      var d := parseDate(s).value;
      assert NormalizeDate(parseDate, s).value == IsoDate(d);
      assert |IsoDate(d)| >= 1;
    }
  }

  lemma NormalizedTimeNonEmpty(parseTime: string -> Option<TimeOfDay>, s: string)
    ensures NormalizeTime(parseTime, s).Success? ==> NormalizeTime(parseTime, s).value != ""
  {
  }

  /** Once an event is stored, a second event whose title gives the same
      slug is refused by the unique index, and nothing is stored. */
  lemma SameSlugRefused(events: seq<Event>, a: Event, b: Event, parsers: Parsers)
    requires SaveNewEvent(events, a, parsers).Saved?
    requires GenerateSlug(b.title) == GenerateSlug(a.title)
    requires IsValid(ApplySetters(b))
    requires PreSaveEffect(ApplySetters(b), true, AssignedPaths(ApplySetters(b)), parsers).signal.Proceed?
    ensures var stored := SaveNewEvent(events, a, parsers).stored;
      SaveNewEvent(stored, b, parsers) == Rejected(stored, DuplicateKey(Slug, GenerateSlug(a.title)))
  {
    var stored := SaveNewEvent(events, a, parsers).stored;
    SaveNewEventSound(events, a, parsers);
    var eb := ApplySetters(b);
    var rb := PreSaveEffect(eb, true, AssignedPaths(eb), parsers);
    ValidationMatchesConstraints(eb);
    SlugOfTrimmedTitle(b.title);
    PreSaveSlug(eb, true, AssignedPaths(eb), parsers);
    DuplicateStage(stored, ValidationErrors(eb), rb, GenerateSlug(a.title));
  }

  /** A hook run that proceeds with a slug the collection's last event
      already has is refused by the unique index. */
  lemma DuplicateStage(stored: seq<Event>, errs: seq<FieldError<Path>>, run: HookRun, slug: string)
    requires stored != [] && Last(stored).slug == slug
    requires errs == [] && run.signal.Proceed? && run.doc.slug == slug
    ensures (if errs != [] then Rejected(stored, Invalid(errs)) else Commit(stored, run))
      == Rejected(stored, DuplicateKey(Slug, slug))
  {
    assert stored[|stored| - 1].slug == run.doc.slug;
  }

  /** "My Cool Event" after "My Cool Event!!": both titles give the slug
      `my-cool-event`, so the second save is refused. */
  lemma MyCoolEventTwice(events: seq<Event>, a: Event, b: Event,
                         parsers: Parsers)
    requires a.title == "My Cool Event!!" && b.title == "My Cool Event"
    requires SaveNewEvent(events, a, parsers).Saved?
    requires IsValid(ApplySetters(b))
    requires PreSaveEffect(ApplySetters(b), true, AssignedPaths(ApplySetters(b)), parsers).signal.Proceed?
    ensures var stored := SaveNewEvent(events, a, parsers).stored;
      SaveNewEvent(stored, b, parsers) == Rejected(stored, DuplicateKey(Slug, "my-cool-event"))
  {
    SlugOfMyCoolEvent();
    SameSlugRefused(events, a, b, parsers);
  }
}
