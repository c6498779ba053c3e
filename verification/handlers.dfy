/** The command handlers of the bot over an explicit store: `add_event`,
    `update_event`, `delete_event`, `view_event`, `calendar` and
    `clear_events`. Each takes the store (and `today` where the source
    reads the clock) and yields the new store with a reply or an error;
    a refused command leaves the store as it was. */
module Handlers {
  import opened Wrappers
  import opened Text
  import opened Dates
  import opened Validators
  import opened Events
  import opened UpdateTokens
  import opened CalendarRange

  datatype Reply =
    | Added(event: Event)
    | Updated(event: Event)
    | Deleted(name: string)
    | Viewed(event: Event)
    | Listed(events: seq<Event>)
    | Cleared

  datatype Outcome = Outcome(store: Store, reply: Result<Reply, Error>)

  function Refuse(store: Store, e: Error): Outcome {
    Outcome(store, Failure(e))
  }

  lemma AppendConsistent(store: Store, e: Event)
    requires NameFree(store, e.name) && ValidDate(e.date)
    ensures Consistent(store) ==> Consistent(store + [e])
  {
    if !Consistent(store) {
      return;
    }
    var s := store + [e];
    forall i, j | 0 <= i < j < |s|
      ensures !SameIgnoringCase(s[i].name, s[j].name)
    {
      if j == |store| {
        assert !SameIgnoringCase(store[i].name, e.name);
      }
    }
  }

  /** `add_event`: four arguments, a date and a time that validate, a date
      not before today and a name no record has ignoring case; then the
      record with the canonical date and time is appended. */
  function AddEvent(store: Store, args: seq<string>, today: Date): (r: Outcome)
    requires ValidDate(today)
    ensures r.reply.Failure? ==> r.store == store
    ensures |args| != 4 ==> r.reply == Failure(Usage)
    ensures |args| == 4 && (ValidateDate(args[1]).None? || ValidateTime(args[2]).None?) ==>
      r.reply == Failure(BadDateOrTime)
    ensures |args| == 4 && ValidateDate(args[1]).Some? && ValidateTime(args[2]).Some? ==>
      && (Before(ValidateDate(args[1]).value, today) ==> r.reply == Failure(PastDate))
      && (!Before(ValidateDate(args[1]).value, today) && !NameFree(store, args[0]) ==> r.reply == Failure(DuplicateName))
    ensures r.reply.Success? <==>
      && |args| == 4
      && ValidateDate(args[1]).Some? && ValidateTime(args[2]).Some?
      && !Before(ValidateDate(args[1]).value, today)
      && NameFree(store, args[0])
    ensures r.reply.Success? ==>
      && |r.store| == |store| + 1
      && r.store[..|store|] == store
      && r.store[|store|] == Event(args[0], ValidateDate(args[1]).value, ValidateTime(args[2]).value, args[3])
      && r.reply.value == Added(r.store[|store|])
    ensures Consistent(store) ==> Consistent(r.store)
  {
    if |args| != 4 then Refuse(store, Usage)
    else
      var name, dateText, timeText, contact := args[0], args[1], args[2], args[3];
      match (ValidateDate(dateText), ValidateTime(timeText))
      case (Some(d), Some(t)) =>
        if Before(d, today) then Refuse(store, PastDate)
        else if Find(store, name).Some? then Refuse(store, DuplicateName)
        else
          var e := Event(name, d, t, contact);
          AppendConsistent(store, e);
          Outcome(store + [e], Success(Added(e)))
      case _ => Refuse(store, BadDateOrTime)
  }

  /** Some record other than the one at `i` has `name`, ignoring case. */
  predicate NameTakenByOther(store: Store, i: nat, name: string) {
    exists j :: 0 <= j < |store| && j != i && SameIgnoringCase(store[j].name, name)
  }

  lemma ExpectedDateValid(e: Event, tokens: seq<string>)
    ensures ValidDate(e.date) ==> ValidDate(Expected(e, tokens).date)
  {
  }

  lemma ReplaceConsistent(store: Store, i: nat, e: Event)
    requires i < |store| && !NameTakenByOther(store, i, e.name)
    requires DatesValid(store) ==> ValidDate(e.date)
    ensures Consistent(store) ==> Consistent(store[i := e])
  {
    if !Consistent(store) {
      return;
    }
    var s := store[i := e];
    forall a, b | 0 <= a < b < |s|
      ensures !SameIgnoringCase(s[a].name, s[b].name)
    {
      if a == i {
        assert !SameIgnoringCase(store[b].name, e.name);
      } else if b == i {
        assert !SameIgnoringCase(store[a].name, e.name);
      }
    }
  }

  /** The merge and write of an update once the record at `i` is found. */
  function UpdateAt(store: Store, i: nat, tokens: seq<string>): (r: Outcome)
    requires i < |store|
    ensures r.reply.Failure? ==> r.store == store
    ensures r.reply.Success? <==>
      AllWellFormed(tokens) && !NameTakenByOther(store, i, Expected(store[i], tokens).name)
    ensures !AllWellFormed(tokens) ==>
      CollectPatch(NoChanges, tokens).Failure? && r.reply == Failure(CollectPatch(NoChanges, tokens).error)
    ensures AllWellFormed(tokens) && NameTakenByOther(store, i, Expected(store[i], tokens).name) ==>
      r.reply == Failure(DuplicateName)
    ensures r.reply.Success? ==>
      r.store == store[i := Expected(store[i], tokens)] && r.reply.value == Updated(r.store[i])
    ensures Consistent(store) ==> Consistent(r.store)
  {
    CollectPatchSpec(NoChanges, tokens);
    match CollectPatch(NoChanges, tokens)
    case Failure(e) => Refuse(store, e)
    case Success(p) =>
      MergeTokens(store[i], tokens);
      var e := Merge(store[i], p);
      if NameTakenByOther(store, i, e.name) then Refuse(store, DuplicateName)
      else
        ExpectedDateValid(store[i], tokens);
        ReplaceConsistent(store, i, e);
        Outcome(store[i := e], Success(Updated(e)))
  }

  /** `update_event` with its row write corrected: two to four arguments,
      a record found by name ignoring case, well-formed tokens and a new
      name that no other record has; then that record alone becomes
      `Expected` (supplied non-empty values replace stored ones, the last
      token for a field wins) and every other record is untouched. */
  function UpdateEvent(store: Store, args: seq<string>): (r: Outcome)
    ensures r.reply.Failure? ==> r.store == store
    ensures !(2 <= |args| <= 4) ==> r.reply == Failure(Usage)
    ensures 2 <= |args| <= 4 && Find(store, args[0]).None? ==> r.reply == Failure(NotFound)
    ensures 2 <= |args| <= 4 && Find(store, args[0]).Some? && !AllWellFormed(args[1..]) ==>
      CollectPatch(NoChanges, args[1..]).Failure? && r.reply == Failure(CollectPatch(NoChanges, args[1..]).error)
    ensures 2 <= |args| <= 4 && Find(store, args[0]).Some? && AllWellFormed(args[1..]) ==>
      var i := Find(store, args[0]).value;
      NameTakenByOther(store, i, Expected(store[i], args[1..]).name) ==> r.reply == Failure(DuplicateName)
    ensures r.reply.Success? <==>
      && 2 <= |args| <= 4
      && Find(store, args[0]).Some?
      && AllWellFormed(args[1..])
      && var i := Find(store, args[0]).value;
         !NameTakenByOther(store, i, Expected(store[i], args[1..]).name)
    ensures r.reply.Success? ==>
      var i := Find(store, args[0]).value;
      && |r.store| == |store|
      && r.store[i] == Expected(store[i], args[1..])
      && (forall j :: 0 <= j < |store| && j != i ==> r.store[j] == store[j])
      && r.reply.value == Updated(r.store[i])
    ensures Consistent(store) ==> Consistent(r.store)
  {
    if |args| < 2 || |args| > 4 then Refuse(store, Usage)
    else
      match Find(store, args[0])
      case None => Refuse(store, NotFound)
      case Some(i) => UpdateAt(store, i, args[1..])
  }

  /** The row write of `update_event` as written:
      `SET event_name=?, event_date=?, event_time=?, event_time=?
      WHERE event_name=?` with (name, date, time, contact, argument).
      SQLite keeps the rightmost of two assignments to one column, so the
      time column receives the contact and the contact column is never
      written; and the WHERE compares names case-sensitively, so it hits
      the rows named exactly as typed, not the row the lookup found. */
  function WriteAsWritten(store: Store, key: string, e: Event): (r: Store)
    ensures |r| == |store|
    ensures forall k :: 0 <= k < |store| && store[k].name != key ==> r[k] == store[k]
    ensures forall k :: 0 <= k < |store| && store[k].name == key ==>
      r[k] == Event(e.name, e.date, e.contact, store[k].contact)
  {
    seq(|store|, k requires 0 <= k < |store| =>
      if store[k].name == key then Event(e.name, e.date, e.contact, store[k].contact) else store[k])
  }

  /** `update_event` as written: the same checks as `UpdateEvent` except
      that a new name may clash with another record, and the write is
      `WriteAsWritten`. The reply shows the merged values whether or not
      any row changed. */
  function UpdateAsWritten(store: Store, args: seq<string>): (r: Outcome)
    ensures r.reply.Failure? ==> r.store == store
    ensures r.reply.Failure? ==> r == UpdateEvent(store, args)
    ensures r.reply.Success? <==>
      2 <= |args| <= 4 && Find(store, args[0]).Some? && AllWellFormed(args[1..])
    ensures r.reply.Success? ==>
      var e := Expected(store[Find(store, args[0]).value], args[1..]);
      r.reply.value == Updated(e) && r.store == WriteAsWritten(store, args[0], e)
  {
    if |args| < 2 || |args| > 4 then Refuse(store, Usage)
    else
      match Find(store, args[0])
      case None => Refuse(store, NotFound)
      case Some(i) =>
        var tokens := args[1..];
        CollectPatchSpec(NoChanges, tokens);
        match CollectPatch(NoChanges, tokens)
        case Failure(e) => Refuse(store, e)
        case Success(p) =>
          MergeTokens(store[i], tokens);
          var e := Merge(store[i], p);
          Outcome(WriteAsWritten(store, args[0], e), Success(Updated(e)))
  }

  /** Two records at `i < j` share a name ignoring case. */
  lemma SharedName(store: Store, i: nat, j: nat)
    requires i < j < |store| && SameIgnoringCase(store[i].name, store[j].name)
    ensures !Unique(store)
  {
  }

  /** As written, an update that renames the record it found (typed
      exactly) onto the name of another record succeeds and leaves two
      records of one name. */
  lemma RenameClashAsWritten(store: Store, i: nat, j: nat, args: seq<string>)
    requires 2 <= |args| <= 4 && Find(store, args[0]) == Some(i) && store[i].name == args[0]
    requires AllWellFormed(args[1..])
    requires j < |store| && j != i
    requires SameIgnoringCase(store[j].name, Expected(store[i], args[1..]).name)
    ensures UpdateAsWritten(store, args).reply.Success?
    ensures !Unique(UpdateAsWritten(store, args).store)
  {
    var e := Expected(store[i], args[1..]);
    var written := WriteAsWritten(store, args[0], e);
    assert UpdateAsWritten(store, args).store == written;
    assert written[i].name == e.name;
    if store[j].name == args[0] {
      assert written[j].name == e.name;
    } else {
      assert written[j] == store[j];
    }
    assert SameIgnoringCase(written[j].name, written[i].name);
    if i < j {
      SharedName(written, i, j);
    } else {
      SharedName(written, j, i);
    }
  }

  lemma RemoveConsistent(store: Store, i: nat)
    requires i < |store|
    ensures Consistent(store) ==> Consistent(store[..i] + store[i + 1..])
    ensures Consistent(store) ==> NameFree(store[..i] + store[i + 1..], store[i].name)
  {
    var s := store[..i] + store[i + 1..];
    assert forall k :: 0 <= k < |s| ==> s[k] == store[if k < i then k else k + 1];
  }

  /** `delete_event` with its row delete corrected: a non-empty name and a
      record found by name ignoring case; then that record alone is
      removed, and in a consistent store no record of that name is left. */
  function DeleteEvent(store: Store, name: string): (r: Outcome)
    ensures r.reply.Failure? ==> r.store == store
    ensures name == "" ==> r.reply == Failure(Usage)
    ensures name != "" && NameFree(store, name) ==> r.reply == Failure(NotFound)
    ensures r.reply.Success? <==> name != "" && !NameFree(store, name)
    ensures r.reply.Success? ==>
      var i := Find(store, name).value;
      r.store == store[..i] + store[i + 1..] && r.reply.value == Deleted(name)
    ensures Consistent(store) ==> Consistent(r.store)
    ensures Consistent(store) && r.reply.Success? ==> NameFree(r.store, name)
  {
    if name == "" then Refuse(store, Usage)
    else
      match Find(store, name)
      case None => Refuse(store, NotFound)
      case Some(i) =>
        RemoveConsistent(store, i);
        Outcome(store[..i] + store[i + 1..], Success(Deleted(name)))
  }

  /** `DELETE FROM events WHERE event_name=?`: every row named exactly
      `key`, compared case-sensitively. */
  function RemoveNamed(store: Store, key: string): (r: Store)
    ensures |r| <= |store|
    ensures forall e :: e in r <==> e in store && e.name != key
    ensures forall e :: multiset(r)[e] == if e.name != key then multiset(store)[e] else 0
    decreases |store|
  {
    if |store| == 0 then []
    else
      var rest := RemoveNamed(store[1..], key);
      assert store == [store[0]] + store[1..];
      assert multiset(store) == multiset{store[0]} + multiset(store[1..]);
      if store[0].name == key then rest
      else
        assert multiset([store[0]] + rest) == multiset{store[0]} + multiset(rest);
        [store[0]] + rest
  }

  /** `delete_event` as written: the lookup ignores case but the delete
      does not, so the bot can report a deletion that removed nothing. */
  function DeleteAsWritten(store: Store, name: string): (r: Outcome)
    ensures r.reply.Failure? ==> r.store == store
    ensures r.reply.Failure? ==> r == DeleteEvent(store, name)
    ensures r.reply.Success? <==> name != "" && !NameFree(store, name)
    ensures r.reply.Success? ==> r.store == RemoveNamed(store, name) && r.reply.value == Deleted(name)
  {
    if name == "" then Refuse(store, Usage)
    else
      match Find(store, name)
      case None => Refuse(store, NotFound)
      case Some(_) => Outcome(RemoveNamed(store, name), Success(Deleted(name)))
  }

  /** `view_event`: a non-empty name and a record found ignoring case; the
      store never changes, and in a consistent store the record shown is
      the only one with that name. */
  function ViewEvent(store: Store, name: string): (r: Outcome)
    ensures r.store == store
    ensures name == "" ==> r.reply == Failure(Usage)
    ensures r.reply.Success? <==> name != "" && !NameFree(store, name)
    ensures r.reply.Failure? ==> r.reply.error in {Usage, NotFound}
    ensures name != "" && NameFree(store, name) ==> r.reply == Failure(NotFound)
    ensures r.reply.Success? ==> r.reply.value == Viewed(store[Find(store, name).value])
    ensures r.reply.Success? ==>
      r.reply.value.Viewed? && r.reply.value.event in store
      && SameIgnoringCase(r.reply.value.event.name, name)
    ensures r.reply.Success? && Unique(store) ==>
      forall j :: 0 <= j < |store| && SameIgnoringCase(store[j].name, name) ==> store[j] == r.reply.value.event
  {
    if name == "" then Refuse(store, Usage)
    else
      match Find(store, name)
      case None => Refuse(store, NotFound)
      case Some(i) =>
        FoundIsOnly(store, name);
        Outcome(store, Success(Viewed(store[i])))
  }

  lemma FoundIsOnly(store: Store, name: string)
    requires Find(store, name).Some?
    ensures Unique(store) ==>
      forall j :: 0 <= j < |store| && SameIgnoringCase(store[j].name, name) ==> store[j] == store[Find(store, name).value]
  {
    if Unique(store) {
      forall j | 0 <= j < |store| && SameIgnoringCase(store[j].name, name)
        ensures store[j] == store[Find(store, name).value]
      {
        FindUnique(store, name, j);
      }
    }
  }

  /** The listing of `calendar` for a range: the records inside it, or
      NoEvents when there are none. */
  function Listing(events: seq<Event>): (r: Result<Reply, Error>)
    ensures r.Success? <==> |events| > 0
    ensures r.Success? ==> r.value == Listed(events)
    ensures r.Failure? ==> r.error == NoEvents
  {
    if |events| == 0 then Failure(NoEvents) else Success(Listed(events))
  }

  /** `calendar` with its month range corrected: the option check, then
      the whole store, the records of the current week or those of the
      current month (the 1st to the true last day, December included); an
      empty selection is refused. The store never changes. */
  function ShowCalendar(store: Store, option: Option<string>, today: Date): (r: Outcome)
    requires ValidDate(today)
    ensures r.store == store
    ensures ParseOption(option).Failure? ==> r.reply == Failure(Usage)
    ensures ParseOption(option) == Success(WholeCalendar) ==>
      r.reply == (if |store| == 0 then Failure(NoEvents) else Success(Listed(store)))
    ensures ParseOption(option) == Success(ThisWeek) && WeekRange(today).Failure? ==>
      r.reply == Failure(DateOverflow)
    ensures r.reply.Success? ==> r.reply.value.Listed? && |r.reply.value.events| > 0
    ensures r.reply.Success? && ParseOption(option) == Success(ThisWeek) && DatesValid(store) ==>
      forall e :: e in r.reply.value.events <==> e in store && InWeekOf(e.date, today)
    ensures r.reply.Success? && ParseOption(option) == Success(ThisMonth) && DatesValid(store) ==>
      forall e :: e in r.reply.value.events <==> e in store && InMonthOf(e.date, today)
    ensures ParseOption(option) == Success(ThisWeek) && WeekRange(today).Success? && DatesValid(store) ==>
      (r.reply.Success? <==> exists e :: e in store && InWeekOf(e.date, today))
    ensures ParseOption(option) == Success(ThisMonth) && DatesValid(store) ==>
      (r.reply.Success? <==> exists e :: e in store && InMonthOf(e.date, today))
    ensures r.reply.Success? && ParseOption(option) == Success(ThisWeek) && DatesValid(store) ==>
      forall e :: multiset(r.reply.value.events)[e] ==
        if e in store && InWeekOf(e.date, today) then multiset(store)[e] else 0
    ensures r.reply.Success? && ParseOption(option) == Success(ThisMonth) && DatesValid(store) ==>
      forall e :: multiset(r.reply.value.events)[e] ==
        if e in store && InMonthOf(e.date, today) then multiset(store)[e] else 0
    ensures ParseOption(option).Success? && r.reply.Failure? && r.reply.error != NoEvents ==>
      ParseOption(option) == Success(ThisWeek) && WeekRange(today).Failure?
  {
    match ParseOption(option)
    case Failure(e) => Refuse(store, e)
    case Success(WholeCalendar) => Outcome(store, Listing(store))
    case Success(ThisWeek) =>
      (match WeekRange(today)
       case Failure(e) => Refuse(store, e)
       case Success((start, end)) =>
         WeekRangeExact(today);
         Outcome(store, Listing(EventsWithin(store, start, end))))
    case Success(ThisMonth) =>
      var (start, end) := MonthRange(today);
      Outcome(store, Listing(EventsWithin(store, start, end)))
  }

  /** `calendar` as written: the same as `ShowCalendar` except that the
      monthly listing builds its end bound with `month=today.month+1`,
      which raises for the whole of December. */
  function ShowCalendarAsWritten(store: Store, option: Option<string>, today: Date): (r: Outcome)
    requires ValidDate(today)
    ensures r.store == store
    ensures ParseOption(option) == Success(ThisMonth) && today.month == 12 ==>
      r.reply == Failure(MonthOutOfRange)
    ensures !(ParseOption(option) == Success(ThisMonth) && today.month == 12) ==>
      r == ShowCalendar(store, option, today)
  {
    match ParseOption(option)
    case Success(ThisMonth) =>
      (match MonthRangeAsWritten(today)
       case Failure(e) => Refuse(store, e)
       case Success((start, end)) => Outcome(store, Listing(EventsWithin(store, start, end))))
    case _ => ShowCalendar(store, option, today)
  }

  /** `clear_events`: the store becomes empty; it never fails. */
  function ClearEvents(store: Store): (r: Outcome)
    ensures r.store == [] && r.reply == Success(Cleared)
  {
    Outcome([], Success(Cleared))
  }

  /** After `clear_events` no name can be viewed and the calendar is empty. */
  lemma ClearLeavesNothing(store: Store, name: string, today: Date)
    requires ValidDate(today) && name != ""
    ensures ViewEvent(ClearEvents(store).store, name).reply == Failure(NotFound)
    ensures ShowCalendar(ClearEvents(store).store, None, today).reply == Failure(NoEvents)
  {
  }

  /** A command as the bot receives it, arguments already split. */
  datatype Command =
    | AddCmd(args: seq<string>)
    | UpdateCmd(args: seq<string>)
    | DeleteCmd(name: string)
    | ViewCmd(name: string)
    | CalendarCmd(option: Option<string>)
    | ClearCmd

  function Dispatch(store: Store, cmd: Command, today: Date): (r: Outcome)
    requires ValidDate(today)
    ensures Consistent(store) ==> Consistent(r.store)
    ensures r.reply.Failure? ==> r.store == store
  {
    match cmd
    case AddCmd(args) => AddEvent(store, args, today)
    case UpdateCmd(args) => UpdateEvent(store, args)
    case DeleteCmd(name) => DeleteEvent(store, name)
    case ViewCmd(name) => ViewEvent(store, name)
    case CalendarCmd(option) => ShowCalendar(store, option, today)
    case ClearCmd => ClearEvents(store)
  }

  /** The store after a sequence of commands, one at a time. */
  function Run(store: Store, cmds: seq<Command>, today: Date): Store
    requires ValidDate(today)
    decreases |cmds|
  {
    if |cmds| == 0 then store else Run(Dispatch(store, cmds[0], today).store, cmds[1..], today)
  }

  /** Names stay unique and dates stay real across any run of commands. */
  lemma {:induction false} RunConsistent(store: Store, cmds: seq<Command>, today: Date)
    requires ValidDate(today) && Consistent(store)
    ensures Consistent(Run(store, cmds, today))
    decreases |cmds|
  {
    if |cmds| > 0 {
      RunConsistent(Dispatch(store, cmds[0], today).store, cmds[1..], today);
    }
  }
}
