/** The `events` table: records of name, date, time and contact, kept in
    insertion order, looked up by name under SQLite's NOCASE collation. */
module Events {
  import opened Wrappers
  import opened Text
  import opened Dates

  /** One row of the table. The date is the calendar date the validator
      produced; the time is text (the validator's canonical form when the
      record was added). */
  datatype Event = Event(name: string, date: Date, time: string, contact: string)

  type Store = seq<Event>

  /** The reasons a command is refused; each becomes the error reply the
      bot sends. */
  datatype Error =
    | Usage            // wrong argument count, malformed token, unknown field or option
    | BadDateOrTime    // add: the date or the time does not validate
    | PastDate         // add: the date is before today
    | DuplicateName    // the name is already on record, ignoring case
    | NotFound         // no record has the name, ignoring case
    | BadDate          // update: a `date=` value does not validate
    | BadTime          // update: a `time=` value does not validate
    | NoEvents         // calendar: nothing in the chosen range
    | MonthOutOfRange  // calendar: `replace(month=13)` raised
    | DateOverflow     // calendar: date arithmetic left year 9999

  /** `SELECT * FROM events WHERE event_name=? COLLATE NOCASE` followed by
      `fetchone()`: the position of the first record whose name equals
      `name` ignoring case. */
  function Find(store: Store, name: string): (r: Option<nat>)
    ensures r.Some? ==> r.value < |store| && SameIgnoringCase(store[r.value].name, name)
    ensures r.Some? ==> forall j :: 0 <= j < r.value ==> !SameIgnoringCase(store[j].name, name)
    ensures r.None? <==> NameFree(store, name)
    decreases |store|
  {
    if |store| == 0 then None
    else if SameIgnoringCase(store[0].name, name) then Some(0)
    else
      match Find(store[1..], name)
      case None => None
      case Some(i) => Some(i + 1)
  }

  /** No two records share a name ignoring case: what the duplicate check
      of `add_event` is there to keep. */
  predicate Unique(store: Store) {
    forall i, j :: 0 <= i < j < |store| ==> !SameIgnoringCase(store[i].name, store[j].name)
  }

  /** Every stored date is a real calendar date: records only receive
      dates the validator produced. */
  predicate DatesValid(store: Store) {
    forall i :: 0 <= i < |store| ==> ValidDate(store[i].date)
  }

  /** The invariant the commands keep. */
  predicate Consistent(store: Store) {
    Unique(store) && DatesValid(store)
  }

  /** No record is named `name`, ignoring case. */
  predicate NameFree(store: Store, name: string) {
    forall j :: 0 <= j < |store| ==> !SameIgnoringCase(store[j].name, name)
  }

  /** In a store with unique names, a record found by name is the only one
      with that name. */
  lemma FindUnique(store: Store, name: string, j: nat)
    requires Unique(store)
    requires j < |store| && SameIgnoringCase(store[j].name, name)
    ensures Find(store, name) == Some(j)
  {
    var i := Find(store, name).value;
    if i < j {
      assert SameIgnoringCase(store[i].name, store[j].name);
    }
  }
}
