/** The timesheet's state as the two change handlers update it: `entries`, an object from
    `${dateStr}-${employeeId}` keys to entry objects (fields such as `type`, `start`, `end` and
    `notes`), and `employees`, a list of id/name records. */
module Entries {
  import opened Wrappers
  import opened DateText

  /** An entry object: field name to value. */
  type Entry = map<string, string>

  /** The `entries` object: key to entry. */
  type EntryMap = map<string, Entry>

  /** `entry.field`; a missing field reads as the empty string (both are falsy). */
  function Field(entry: Entry, field: string): string {
    if field in entry then entry[field] else ""
  }

  /** `entries[key] || {}`. */
  function Lookup(entries: EntryMap, key: string): Entry {
    if key in entries then entries[key] else map[]
  }

  /** `${dateStr}-${empId}`. */
  function EntryKey(dateStr: string, empId: int): string {
    dateStr + "-" + IntText(empId)
  }

  /** `handleEntryChange(dateStr, field, value)` for the selected employee: the entry under the
      key gets `field` set to `value`, the rest of the entry and of the map kept (`{ ...old,
      [field]: value }`). */
  function HandleEntryChange(entries: EntryMap, selectedEmp: int, dateStr: string,
                             field: string, value: string): EntryMap
  {
    var key := EntryKey(dateStr, selectedEmp);
    entries[key := Lookup(entries, key)[field := value]]
  }

  /** The changed field reads back; every other field of the entry and every other key is as
      before; the map gains at most the one key. */
  lemma HandleEntryChangeEffect(entries: EntryMap, selectedEmp: int, dateStr: string,
                                field: string, value: string)
    ensures var key, r := EntryKey(dateStr, selectedEmp), HandleEntryChange(entries, selectedEmp, dateStr, field, value);
            key in r && Field(r[key], field) == value &&
            r[key].Keys == Lookup(entries, key).Keys + {field} &&
            (forall f :: f != field ==> Field(r[key], f) == Field(Lookup(entries, key), f)) &&
            r.Keys == entries.Keys + {key} &&
            (forall k :: k != key ==> Lookup(r, k) == Lookup(entries, k))
  {
  }

  /** Setting the same field to the same value twice is setting it once. */
  lemma HandleEntryChangeIdempotent(entries: EntryMap, emp: int, dateStr: string,
                                    field: string, value: string)
    ensures var once := HandleEntryChange(entries, emp, dateStr, field, value);
            HandleEntryChange(once, emp, dateStr, field, value) == once
  {
    var key, once := EntryKey(dateStr, emp), HandleEntryChange(entries, emp, dateStr, field, value);
    assert Lookup(once, key)[field := value] == Lookup(once, key);
  }

  /** Changes to different fields, or to different keys, commute. */
  lemma HandleEntryChangeCommutes(entries: EntryMap, emp1: int, date1: string, field1: string, value1: string,
                                  emp2: int, date2: string, field2: string, value2: string)
    requires EntryKey(date1, emp1) != EntryKey(date2, emp2) || field1 != field2
    ensures HandleEntryChange(HandleEntryChange(entries, emp1, date1, field1, value1), emp2, date2, field2, value2) ==
            HandleEntryChange(HandleEntryChange(entries, emp2, date2, field2, value2), emp1, date1, field1, value1)
  {
    var k1, k2 := EntryKey(date1, emp1), EntryKey(date2, emp2);
    var a := HandleEntryChange(HandleEntryChange(entries, emp1, date1, field1, value1), emp2, date2, field2, value2);
    var b := HandleEntryChange(HandleEntryChange(entries, emp2, date2, field2, value2), emp1, date1, field1, value1);
    assert a.Keys == b.Keys;
    forall k | k in a.Keys
      ensures a[k] == b[k]
    {
      if k == k1 && k == k2 {
        assert a[k].Keys == b[k].Keys;
      }
    }
  }

  /** With date strings of one length (as `formatDate` gives for four-digit years), two keys
      are equal exactly when date and employee are. */
  lemma {:induction false} EntryKeyInjective(date1: string, emp1: int, date2: string, emp2: int)
    requires |date1| == |date2|
    ensures EntryKey(date1, emp1) == EntryKey(date2, emp2) <==> date1 == date2 && emp1 == emp2
  {
    var k1, k2 := EntryKey(date1, emp1), EntryKey(date2, emp2);
    if k1 == k2 {
      assert k1[..|date1|] == date1 && k2[..|date2|] == date2;
      assert k1[|date1| + 1..] == IntText(emp1) && k2[|date2| + 1..] == IntText(emp2);
      IntTextValue(emp1);
      IntTextValue(emp2);
    }
  }

  /** An employee record. */
  datatype Employee = Employee(id: int, name: string)

  /** `handleEmployeeNameChange(id, newName)`: `employees.map(e => e.id === id ? { ...e, name:
      newName } : e)`. */
  function RenameEmployee(employees: seq<Employee>, id: int, newName: string): seq<Employee> {
    seq(|employees|, i requires 0 <= i < |employees| =>
      if employees[i].id == id then employees[i].(name := newName) else employees[i])
  }

  /** `employees.find(e => e.id === id)`: the first record with the id. */
  function FindEmployee(employees: seq<Employee>, id: int): (r: Option<Employee>)
    ensures r.Some? ==> r.value.id == id &&
                        exists i :: 0 <= i < |employees| && employees[i] == r.value &&
                                    forall j :: 0 <= j < i ==> employees[j].id != id
    ensures r.None? ==> forall e :: e in employees ==> e.id != id
  {
    if employees == [] then None
    else if employees[0].id == id then Some(employees[0])
    else FindEmployee(employees[1..], id)
  }

  /** Renaming keeps the length and the ids, in order, and changes only the names of the
      records with the id. */
  lemma RenameEmployeeEffect(employees: seq<Employee>, id: int, newName: string)
    ensures var r := RenameEmployee(employees, id, newName);
            |r| == |employees| &&
            (forall i :: 0 <= i < |r| ==> r[i].id == employees[i].id) &&
            (forall i :: 0 <= i < |r| && employees[i].id == id ==> r[i].name == newName) &&
            (forall i :: 0 <= i < |r| && employees[i].id != id ==> r[i] == employees[i])
  {
  }

  /** Renaming twice with the same name is renaming once. */
  lemma RenameEmployeeIdempotent(employees: seq<Employee>, id: int, newName: string)
    ensures var once := RenameEmployee(employees, id, newName);
            RenameEmployee(once, id, newName) == once
  {
  }

  /** After renaming, looking the id up gives the new name, and every other id finds what it
      found before. */
  lemma {:induction false} FindAfterRename(employees: seq<Employee>, id: int, newName: string, other: int)
    ensures var r := RenameEmployee(employees, id, newName);
            (FindEmployee(employees, id).Some? ==> FindEmployee(r, id) == Some(FindEmployee(employees, id).value.(name := newName))) &&
            (FindEmployee(employees, id).None? ==> r == employees) &&
            (other != id ==> FindEmployee(r, other) == FindEmployee(employees, other))
  {
    var r := RenameEmployee(employees, id, newName);
    if employees != [] {
      var rest := RenameEmployee(employees[1..], id, newName);
      assert r[1..] == rest;
      FindAfterRename(employees[1..], id, newName, other);
    }
  }
}
