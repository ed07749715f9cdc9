/**
 * The global state of app.js (app.js:53-57) and the handlers that change it:
 * saving the add/edit dialog, deleting a person, clicking an hour column and
 * choosing another base timezone.
 */
module Roster {
  import opened Wrappers

  /** A tracked person: `{id, name, timezone}` as stored in `people`. */
  datatype Person = Person(id: int, name: string, timezone: string)

  /** Which branch `handleModalSave` took. */
  datatype SaveOutcome = EmptyNameRejected | Edited | Added

  /** Index of the person `people.find(p => p.id === id)` returns, if any. */
  function FindIndex(people: seq<Person>, id: int): (r: Option<nat>)
    ensures r.Some? ==> r.value < |people| && people[r.value].id == id
    ensures r.Some? ==> forall j :: 0 <= j < r.value ==> people[j].id != id
    ensures r.None? <==> forall j :: 0 <= j < |people| ==> people[j].id != id
    decreases |people|
  {
    if people == [] then None
    else if people[0].id == id then Some(0)
    else match FindIndex(people[1..], id)
      case Some(k) => Some(k + 1)
      case None => None
  }

  /** The roster after `person.name = name` on the person `find` returns (app.js:221-224). */
  function RenameFirst(people: seq<Person>, id: int, name: string): (r: seq<Person>)
    ensures |r| == |people|
    ensures forall i :: 0 <= i < |r| ==> r[i].id == people[i].id && r[i].timezone == people[i].timezone
    ensures forall i :: 0 <= i < |r| && FindIndex(people, id) != Some(i) ==> r[i] == people[i]
    ensures forall i :: 0 <= i < |r| && FindIndex(people, id) == Some(i) ==> r[i].name == name
  {
    match FindIndex(people, id)
    case Some(i) => people[i := people[i].(name := name)]
    case None => people
  }

  /** `people.filter(p => p.id !== id)` (app.js:243). */
  function RemoveId(people: seq<Person>, id: int): (r: seq<Person>)
    ensures forall p :: p in r <==> p in people && p.id != id
    ensures |r| <= |people|
    decreases |people|
  {
    if people == [] then []
    else if people[0].id == id then RemoveId(people[1..], id)
    else [people[0]] + RemoveId(people[1..], id)
  }

  /** Filtering distributes over concatenation, so the kept people stay in their order. */
  lemma {:induction false} RemoveIdConcat(a: seq<Person>, b: seq<Person>, id: int)
    ensures RemoveId(a + b, id) == RemoveId(a, id) + RemoveId(b, id)
    decreases |a|
  {
    if a != [] {
      assert (a + b)[1..] == a[1..] + b;
      RemoveIdConcat(a[1..], b, id);
    } else {
      assert a + b == b;
    }
  }

  /** A roster in which nobody has the id is left as it is. */
  lemma {:induction false} RemoveIdAbsent(people: seq<Person>, id: int)
    requires forall i :: 0 <= i < |people| ==> people[i].id != id
    ensures RemoveId(people, id) == people
    decreases |people|
  {
    if people != [] {
      RemoveIdAbsent(people[1..], id);
    }
  }

  /** Deleting twice deletes no more than deleting once. */
  lemma RemoveIdIdempotent(people: seq<Person>, id: int)
    ensures RemoveId(RemoveId(people, id), id) == RemoveId(people, id)
  {
    var r := RemoveId(people, id);
    forall i | 0 <= i < |r| ensures r[i].id != id {
      assert r[i] in r;
    }
    RemoveIdAbsent(r, id);
  }

  /** `referenceHour === hour ? null : hour` (app.js:333). */
  function ToggleReference(reference: Option<int>, hour: int): (r: Option<int>)
    ensures r == None <==> reference == Some(hour)
    ensures r != None ==> r == Some(hour)
  {
    if reference == Some(hour) then None else Some(hour)
  }

  /**
   * Two clicks on the same hour give back the previous reference hour exactly when
   * there was none or it was that hour; after a different hour they clear it.
   */
  lemma ToggleTwice(reference: Option<int>, hour: int)
    ensures ToggleReference(ToggleReference(reference, hour), hour) == reference
      <==> reference == None || reference == Some(hour)
    ensures ToggleReference(ToggleReference(reference, hour), hour) != reference ==>
      ToggleReference(ToggleReference(reference, hour), hour) == None
  {
  }

  /** JavaScript truthiness of `currentEditingId`: `null` and the id 0 are false. */
  predicate Truthy(id: Option<int>) {
    id.Some? && id.value != 0
  }

  predicate NamesNonEmpty(people: seq<Person>) {
    forall i :: 0 <= i < |people| ==> people[i].name != ""
  }

  class App {
    var people: seq<Person>
    var baseTimezone: string
    var referenceHour: Option<int>
    var currentEditingId: Option<int>

    /** Every name in the roster is non-empty: the only way names get in is a save, which refuses "". */
    ghost predicate Valid()
      reads this
    {
      NamesNonEmpty(people)
    }

    /** The state before `loadFromLocalStorage` (app.js:53-57). */
    constructor ()
      ensures people == [] && baseTimezone == "UTC" && referenceHour == None && currentEditingId == None
      ensures Valid()
    {
      people := [];
      baseTimezone := "UTC";
      referenceHour := None;
      currentEditingId := None;
    }

    /** `openModalForAdd` (app.js:176-184), its effect on the state. */
    method OpenModalForAdd()
      modifies this
      ensures currentEditingId == None
      ensures people == old(people) && baseTimezone == old(baseTimezone) && referenceHour == old(referenceHour)
    {
      currentEditingId := None;
    }

    /** `openModalForEdit` (app.js:187-198): only an id that is in the roster starts an edit. */
    method OpenModalForEdit(id: int)
      modifies this
      ensures currentEditingId == if FindIndex(people, id).Some? then Some(id) else old(currentEditingId)
      ensures people == old(people) && baseTimezone == old(baseTimezone) && referenceHour == old(referenceHour)
    {
      if FindIndex(people, id).None? {
        return;
      }
      currentEditingId := Some(id);
    }

    /** `closeModal` (app.js:201-207), its effect on the state. */
    method CloseModal()
      modifies this
      ensures currentEditingId == None
      ensures people == old(people) && baseTimezone == old(baseTimezone) && referenceHour == old(referenceHour)
    {
      currentEditingId := None;
    }

    /**
     * `handleModalSave` (app.js:210-238). `name` is the trimmed text of the name field,
     * `timezone` the dialog's timezone and `newId` the value `Date.now()` gives.
     */
    method HandleModalSave(name: string, timezone: string, newId: int) returns (outcome: SaveOutcome)
      modifies this
      ensures outcome == (if name == "" then EmptyNameRejected
                          else if Truthy(old(currentEditingId)) then Edited else Added)
      ensures outcome == EmptyNameRejected ==> people == old(people) && currentEditingId == old(currentEditingId)
      ensures outcome == Edited ==> people == RenameFirst(old(people), old(currentEditingId).value, name)
      ensures outcome == Added ==> people == old(people) + [Person(newId, name, timezone)]
      ensures outcome != EmptyNameRejected ==> currentEditingId == None
      ensures baseTimezone == old(baseTimezone) && referenceHour == old(referenceHour)
      ensures old(Valid()) ==> Valid()
    {
      if name == "" {
        return EmptyNameRejected;
      }
      if Truthy(currentEditingId) {
        people := RenameFirst(people, currentEditingId.value, name);
        outcome := Edited;
      } else {
        people := people + [Person(newId, name, timezone)];
        outcome := Added;
      }
      CloseModal();
    }

    /** `deletePerson` (app.js:241-247); `confirmed` is the answer to `confirm`. */
    method DeletePerson(id: int, confirmed: bool)
      modifies this
      ensures people == if confirmed then RemoveId(old(people), id) else old(people)
      ensures baseTimezone == old(baseTimezone) && referenceHour == old(referenceHour)
      ensures currentEditingId == old(currentEditingId)
      ensures old(Valid()) ==> Valid()
    {
      if confirmed {
        ghost var before := people;
        people := RemoveId(people, id);
        if NamesNonEmpty(before) {
          forall i | 0 <= i < |people| ensures people[i].name != "" {
            assert people[i] in before;
            var j :| 0 <= j < |before| && before[j] == people[i];
          }
        }
      }
    }

    /** `handleHourClick` (app.js:332-335). */
    method HandleHourClick(hour: int)
      modifies this
      ensures referenceHour == ToggleReference(old(referenceHour), hour)
      ensures people == old(people) && baseTimezone == old(baseTimezone)
      ensures currentEditingId == old(currentEditingId)
    {
      referenceHour := ToggleReference(referenceHour, hour);
    }

    /** `handleBaseTimezoneChange` (app.js:152-157): a new base always clears the reference hour. */
    method HandleBaseTimezoneChange(timezone: string)
      modifies this
      ensures baseTimezone == timezone && referenceHour == None
      ensures people == old(people) && currentEditingId == old(currentEditingId)
    {
      baseTimezone := timezone;
      referenceHour := None;
    }
  }
}
