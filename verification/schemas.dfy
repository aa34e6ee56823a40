/** `TaskCreate` / `TaskUpdate`: how a task body becomes validated input.
    Field validators run in declaration order; the ones that raise an HTTP
    error (status, priority, deadline parsing) abort validation at once,
    while ordinary constraint failures (title length, an empty responsible
    email, a deadline not in the future) are collected and reported only if
    nothing raised; the model reports the first collected one. */
module TaskSchemas {
  import opened Results
  import opened Text
  import Dates
  import TaskValidators

  /** A task body as sent. Absent optional fields are `None`; a `null`
      entry among the performers is `None`. */
  datatype TaskForm = TaskForm(
    title: string,
    description: Option<string>,
    responsiblePerson: string,
    performers: seq<Option<string>>,
    status: Option<string>,
    priority: Option<string>,
    deadline: Option<string>)

  /** A validated `TaskCreate`. The deadline is a minute stamp. */
  datatype TaskInput = TaskInput(
    title: string,
    description: Option<string>,
    responsiblePerson: string,
    performers: seq<string>,
    status: string,
    priority: int,
    deadline: Option<int>)

  const DefaultStatus: string := "TODO"
  const DefaultPriority: int := 5
  const TitleTooLong: string := "String should have at most 250 characters"
  const NotFuture: string := "Input should be in the future"
  /** `EmailStr` rejects an empty address; its other syntax rules are not modelled. */
  const NotAnEmail: string := "value is not a valid email address"

  /** `list(filter(None, emails))`: drops `null` and empty entries, keeping order. */
  function Compact(xs: seq<Option<string>>): (r: seq<string>)
    ensures |r| <= |xs|
    ensures forall x :: x in r <==> Some(x) in xs && x != ""
  {
    if |xs| == 0 then []
    else
      assert forall o :: o in xs <==> o == xs[0] || o in xs[1..];
      (if xs[0].Some? && xs[0].value != "" then [xs[0].value] else []) + Compact(xs[1..])
  }

  /** Compacting keeps entries in order: compacting an already compact list
      changes nothing. */
  lemma {:induction false} CompactKeepsCompact(xs: seq<string>)
    requires forall x :: x in xs ==> x != ""
    ensures Compact(seq(|xs|, i requires 0 <= i < |xs| => Some(xs[i]))) == xs
    decreases |xs|
  {
    if |xs| > 0 {
      var os := seq(|xs|, i requires 0 <= i < |xs| => Some(xs[i]));
      assert os[1..] == seq(|xs[1..]|, i requires 0 <= i < |xs[1..]| => Some(xs[1..][i]));
      assert xs[0] in xs;
      assert forall x :: x in xs[1..] ==> x in xs;
      CompactKeepsCompact(xs[1..]);
      assert xs == [xs[0]] + xs[1..];
    }
  }

  /** What a validated task body guarantees. */
  ghost predicate ValidInput(t: TaskInput, now: int) {
    && |t.title| <= 250
    && t.responsiblePerson != ""
    && TaskValidators.KnownStatus(t.status)
    && 1 <= t.priority <= 5
    && (t.deadline.Some? ==> t.deadline.value > now)
    && (forall p :: p in t.performers ==> p != "")
  }

  /** The status field: the default is not validated; a supplied value goes
      through `check_task_status`. */
  function StatusField(f: TaskForm): Result<string> {
    if f.status.None? then Ok(DefaultStatus) else TaskValidators.CheckTaskStatus(f.status.value)
  }

  function PriorityField(f: TaskForm): Result<int> {
    if f.priority.None? then Ok(DefaultPriority) else TaskValidators.CheckTaskPriority(f.priority.value)
  }

  function DeadlineField(f: TaskForm): Result<Option<int>> {
    if f.deadline.None? then Ok(None)
    else
      match Dates.ParseLikeDatetime(f.deadline.value)
      case Ok(dt) => Ok(Some(Dates.Stamp(dt)))
      case Invalid(m) => Invalid(m)
      case _ => Invalid(Dates.ParseError(f.deadline.value))
  }

  /** A status that passes its field check is a known status. */
  lemma StatusFieldKnown(f: TaskForm)
    requires StatusField(f).Ok?
    ensures TaskValidators.KnownStatus(StatusField(f).value)
  {
    if f.status.None? {
      assert Lower(DefaultStatus) == Lower("TODO");
    }
  }

  /** Validation of a task body at time `now` (a minute stamp; a parsed
      deadline has no seconds, so comparing minute stamps decides
      "in the future" exactly). */
  function ValidateTaskCreate(f: TaskForm, now: int): (r: Result<TaskInput>)
    ensures r.Ok? || r.Invalid?
    ensures r.Ok? ==> ValidInput(r.value, now)
    ensures r.Ok? <==>
      && StatusField(f).Ok? && PriorityField(f).Ok? && DeadlineField(f).Ok?
      && |f.title| <= 250
      && f.responsiblePerson != ""
      && (DeadlineField(f).value.Some? ==> DeadlineField(f).value.value > now)
    ensures r.Ok? ==> r.value == TaskInput(f.title, f.description, f.responsiblePerson, Compact(f.performers),
      StatusField(f).value, PriorityField(f).value, DeadlineField(f).value)
  {
    var status :- StatusField(f);
    var priority :- PriorityField(f);
    var deadline :- DeadlineField(f);
    if |f.title| > 250 then Invalid(TitleTooLong)
    else if f.responsiblePerson == "" then Invalid(NotAnEmail)
    else if deadline.Some? && deadline.value <= now then Invalid(NotFuture)
    else
      StatusFieldKnown(f);
      Ok(TaskInput(f.title, f.description, f.responsiblePerson, Compact(f.performers), status, priority, deadline))
  }

  /** The fields of a validated body: status as typed or "TODO", priority
      as the level of the label or 5, deadline as the parsed date or none. */
  lemma ValidatedFields(f: TaskForm, now: int)
    requires ValidateTaskCreate(f, now).Ok?
    ensures var t := ValidateTaskCreate(f, now).value;
      && t.status == (if f.status.Some? then f.status.value else "TODO")
      && (f.priority.None? ==> t.priority == 5)
      && (f.priority.Some? ==> TaskValidators.CheckTaskPriority(f.priority.value) == Ok(t.priority))
      && (t.deadline.None? <==> f.deadline.None?)
      && (f.deadline.Some? ==>
        var p := Dates.ParseLikeDatetime(f.deadline.value);
        p.Ok? && t.deadline == Some(Dates.Stamp(p.value)))
  {
    var t := ValidateTaskCreate(f, now).value;
    assert t.status == StatusField(f).value && t.priority == PriorityField(f).value;
    assert t.deadline == DeadlineField(f).value;
    DeadlineFieldParsed(f);
  }

  /** An accepted deadline field is absent or the stamp of the parsed date. */
  lemma DeadlineFieldParsed(f: TaskForm)
    requires DeadlineField(f).Ok?
    ensures DeadlineField(f).value.None? <==> f.deadline.None?
    ensures f.deadline.Some? ==>
      var p := Dates.ParseLikeDatetime(f.deadline.value);
      p.Ok? && DeadlineField(f).value == Some(Dates.Stamp(p.value))
  {
  }

  /** Which error a rejected body reports: status first, then priority,
      then the deadline's format. */
  lemma ValidationPrecedence(f: TaskForm, now: int)
    ensures StatusField(f).Invalid? ==> ValidateTaskCreate(f, now) == Invalid(TaskValidators.StatusError)
    ensures StatusField(f).Ok? && PriorityField(f).Invalid? ==>
      ValidateTaskCreate(f, now) == Invalid(TaskValidators.PriorityError)
    ensures StatusField(f).Ok? && PriorityField(f).Ok? && DeadlineField(f).Invalid? ==>
      ValidateTaskCreate(f, now) == Invalid(Dates.ParseError(f.deadline.value))
  {
  }

  /** A status or priority the validators reject wins over an over-long
      title, although the title is declared first. */
  lemma RaisingValidatorsWin(f: TaskForm, now: int)
    requires |f.title| > 250
    requires StatusField(f).Invalid? || PriorityField(f).Invalid?
    ensures ValidateTaskCreate(f, now).Invalid?
    ensures ValidateTaskCreate(f, now).message != TitleTooLong
  {
    ValidationPrecedence(f, now);
    RaisedErrorsDiffer();
  }

  /** The status and priority errors read differently from the title error. */
  lemma RaisedErrorsDiffer()
    ensures TaskValidators.StatusError != TitleTooLong
    ensures TaskValidators.PriorityError != TitleTooLong
  {
    assert TaskValidators.StatusError[0] == 'T' && TitleTooLong[0] == 'S';
    assert TaskValidators.PriorityError[0] == 'T';
  }

  /** A body with only the required fields gets the documented defaults. */
  lemma Defaults(title: string, responsible: string, now: int)
    requires |title| <= 250 && responsible != ""
    ensures ValidateTaskCreate(TaskForm(title, None, responsible, [], None, None, None), now)
      == Ok(TaskInput(title, None, responsible, [], "TODO", 5, None))
  {
  }

  /** A deadline that is not strictly later than `now` is refused. */
  lemma PastDeadlineRefused(f: TaskForm, now: int)
    requires StatusField(f).Ok? && PriorityField(f).Ok? && |f.title| <= 250 && f.responsiblePerson != ""
    requires f.deadline.Some? && Dates.ParseLikeDatetime(f.deadline.value).Ok?
    requires Dates.Stamp(Dates.ParseLikeDatetime(f.deadline.value).value) <= now
    ensures ValidateTaskCreate(f, now) == Invalid(NotFuture)
  {
  }
}
