/**
  The Streamlit session state of the anniversary calculator and the actions
  that change it: the roster of people (`people`, a dictionary from name to
  start date), the list of anniversary types, and the calculation month
  (`calc_date`, always the first day of a month).
*/
module Session {
  import opened Wrappers
  import opened Calendar
  import opened Labels
  import opened OrderedMap
  import opened Catalog
  import opened Filter

  /** The fields a parsed import file may carry; an absent key is `None`. */
  datatype Snapshot = Snapshot(people: Option<seq<Person>>, anniversaryTypes: Option<seq<string>>)

  /** A roster read from JSON: the object's entries in file order, where a
      repeated name keeps its first position and its last date. */
  function RestoredPeople(field: Option<seq<Person>>, current: seq<Person>): (r: seq<Person>)
    ensures field.None? ==> r == current
    ensures field.Some? ==> DistinctKeys(r) && Keys(r) == FirstOccurrences(Keys(field.value))
  {
    match field
    case None => current
    case Some(entries) =>
      var empty: seq<Person> := [];
      assert Keys(empty) + Keys(entries) == Keys(entries);
      PutAllDistinct([], entries);
      PutAllKeys([], entries);
      PutAll([], entries)
  }

  /** A name keeps the date of its last entry in the file. */
  lemma RestoredPeopleLastWins(entries: seq<Person>, current: seq<Person>, i: nat)
    requires i < |entries|
    requires forall j :: i < j < |entries| ==> entries[j].0 != entries[i].0
    ensures Lookup(RestoredPeople(Some(entries), current), entries[i].0) == Some(entries[i].1)
  {
    PutAllLast([], entries, i);
  }

  /** An exported roster is read back unchanged. */
  lemma ExportThenRestore(people: seq<Person>, current: seq<Person>)
    requires DistinctKeys(people)
    ensures RestoredPeople(Some(people), current) == people
  {
    PutAllOfDistinct(people);
  }

  /** The rows of a CSV file whose start dates parse, up to the first row
      whose date does not: there `pd.to_datetime` raises and the loop stops. */
  function ParsedPrefix(rows: seq<(string, Option<Date>)>): (r: seq<Person>)
    ensures |r| <= |rows|
    ensures forall k :: 0 <= k < |r| ==> rows[k].0 == r[k].0 && rows[k].1 == Some(r[k].1)
    ensures |r| < |rows| ==> rows[|r|].1.None?
    decreases |rows|
  {
    if |rows| == 0 || rows[0].1.None? then []
    else [(rows[0].0, rows[0].1.value)] + ParsedPrefix(rows[1..])
  }

  class Session {
    var people: seq<Person>
    var anniversaryTypes: seq<string>
    var calcPeriod: Period

    /** Names are keys of a dictionary and the month is a `datetime` month. */
    ghost predicate Valid()
      reads this
    {
      DistinctKeys(people) && ValidPeriod(calcPeriod)
    }

    /** The first run of the script: no people, the default types, and the
        month of today's date. */
    constructor(today: Date)
      requires ValidDate(today)
      ensures Valid()
      ensures people == [] && anniversaryTypes == DefaultTypes && calcPeriod == CurrentPeriod(today)
    {
      people := [];
      anniversaryTypes := DefaultTypes;
      calcPeriod := CurrentPeriod(today);
    }

    /** "Add Type". */
    method AddType(input: string) returns (o: AddOutcome)
      requires Valid()
      modifies this
      ensures Valid()
      ensures o == ClassifyType(old(anniversaryTypes), input)
      ensures anniversaryTypes == AddTypeResult(old(anniversaryTypes), input)
      ensures people == old(people) && calcPeriod == old(calcPeriod)
    {
      o := ClassifyType(anniversaryTypes, input);
      if o.Added? {
        anniversaryTypes := anniversaryTypes + [o.text];
      }
    }

    /** "Remove Selected Types": `list.remove` for each selected label; `ok`
        is false where a label was missing and the loop stopped there. */
    method RemoveTypes(selected: seq<string>) returns (ok: bool)
      requires Valid()
      modifies this
      ensures Valid()
      ensures (anniversaryTypes, ok) == RemoveEach(old(anniversaryTypes), selected)
      ensures people == old(people) && calcPeriod == old(calcPeriod)
    {
      ok := true;
      var i := 0;
      while i < |selected|
        invariant 0 <= i <= |selected|
        invariant people == old(people) && calcPeriod == old(calcPeriod)
        invariant RemoveEach(old(anniversaryTypes), selected) == RemoveEach(anniversaryTypes, selected[i..])
      {
        assert selected[i..][1..] == selected[i + 1..];
        var r := RemoveFirst(anniversaryTypes, selected[i]);
        if r.None? {
          return false;
        }
        anniversaryTypes := r.value;
        i := i + 1;
      }
    }

    /** "Add": the name is set to the start date whether or not it is empty;
        `nameMissing` is the "Name is required" message shown before. */
    method AddPerson(name: string, start: Date) returns (nameMissing: bool)
      requires Valid()
      modifies this
      ensures Valid()
      ensures nameMissing <==> |name| == 0
      ensures people == Put(old(people), name, start)
      ensures anniversaryTypes == old(anniversaryTypes) && calcPeriod == old(calcPeriod)
    {
      nameMissing := |name| == 0;
      people := Put(people, name, start);
    }

    /** CSV upload: each row in turn sets its name's start date; a row whose
        date does not parse stops the loop with the earlier rows stored. */
    method UploadPeople(rows: seq<(string, Option<Date>)>) returns (ok: bool)
      requires Valid()
      modifies this
      ensures Valid()
      ensures ok <==> forall k :: 0 <= k < |rows| ==> rows[k].1.Some?
      ensures people == PutAll(old(people), ParsedPrefix(rows))
      ensures anniversaryTypes == old(anniversaryTypes) && calcPeriod == old(calcPeriod)
    {
      var i := 0;
      while i < |rows| && rows[i].1.Some?
        invariant 0 <= i <= |rows|
        invariant forall k :: 0 <= k < i ==> rows[k].1.Some?
        invariant |ParsedPrefix(rows[..i])| == i
        invariant people == PutAll(old(people), ParsedPrefix(rows[..i]))
        invariant DistinctKeys(people)
        invariant anniversaryTypes == old(anniversaryTypes) && calcPeriod == old(calcPeriod)
      {
        ParsedPrefixSnoc(rows, i);
        var next := ParsedPrefix(rows[..i + 1]);
        assert next[..i] == ParsedPrefix(rows[..i]);
        people := Put(people, rows[i].0, rows[i].1.value);
        i := i + 1;
      }
      ok := i == |rows|;
      ParsedPrefixUpTo(rows, i);
    }

    /** `export_session`: the two exported fields. */
    function Export(): (s: Snapshot)
      reads this
      ensures s.people == Some(people) && s.anniversaryTypes == Some(anniversaryTypes)
    {
      Snapshot(Some(people), Some(anniversaryTypes))
    }

    /** `import_session`: a field present in the file replaces the state,
        an absent one leaves it; the month is not part of a session file. */
    method Import(data: Snapshot)
      requires Valid()
      modifies this
      ensures Valid()
      ensures people == RestoredPeople(data.people, old(people))
      ensures anniversaryTypes == if data.anniversaryTypes.Some? then data.anniversaryTypes.value else old(anniversaryTypes)
      ensures calcPeriod == old(calcPeriod)
    {
      people := RestoredPeople(data.people, people);
      if data.anniversaryTypes.Some? {
        anniversaryTypes := data.anniversaryTypes.value;
      }
    }

    /** Importing the file just exported restores the session as it was:
        the roster, its order and the anniversary types. */
    method ExportImport()
      requires Valid()
      modifies this
      ensures Valid()
      ensures people == old(people) && anniversaryTypes == old(anniversaryTypes) && calcPeriod == old(calcPeriod)
    {
      var file := Export();
      ExportThenRestore(people, people);
      Import(file);
    }

    /** "Prev. Month"; `ok` is false at January of year 1, where `datetime`
        raises and the month stays. */
    method PrevMonth() returns (ok: bool)
      requires Valid()
      modifies this
      ensures Valid()
      ensures ok <==> PrevPeriod(old(calcPeriod)).Some?
      ensures calcPeriod == if ok then PrevPeriod(old(calcPeriod)).value else old(calcPeriod)
      ensures people == old(people) && anniversaryTypes == old(anniversaryTypes)
    {
      var p := PrevPeriod(calcPeriod);
      ok := p.Some?;
      if ok {
        calcPeriod := p.value;
      }
    }

    /** "Next Month"; `ok` is false at December of year 9999. */
    method NextMonth() returns (ok: bool)
      requires Valid()
      modifies this
      ensures Valid()
      ensures ok <==> NextPeriod(old(calcPeriod)).Some?
      ensures calcPeriod == if ok then NextPeriod(old(calcPeriod)).value else old(calcPeriod)
      ensures people == old(people) && anniversaryTypes == old(anniversaryTypes)
    {
      var p := NextPeriod(calcPeriod);
      ok := p.Some?;
      if ok {
        calcPeriod := p.value;
      }
    }

    /** "Current Month": the month of today's date. */
    method CurrentMonth(today: Date)
      requires Valid() && ValidDate(today)
      modifies this
      ensures Valid()
      ensures calcPeriod == CurrentPeriod(today)
      ensures people == old(people) && anniversaryTypes == old(anniversaryTypes)
    {
      calcPeriod := CurrentPeriod(today);
    }

    /** The anniversaries shown for the calculation month. */
    method Displayed() returns (r: Result<Report, FilterError>)
      requires Valid()
      ensures r == FilterSpec(people, calcPeriod, anniversaryTypes)
    {
      r := FilterAnniversaries(people, calcPeriod, anniversaryTypes);
    }
  }

  lemma {:induction false} ParsedPrefixSnoc(rows: seq<(string, Option<Date>)>, i: nat)
    requires i < |rows| && forall k :: 0 <= k <= i ==> rows[k].1.Some?
    ensures ParsedPrefix(rows[..i + 1]) == ParsedPrefix(rows[..i]) + [(rows[i].0, rows[i].1.value)]
    decreases i
  {
    if i > 0 {
      ParsedPrefixSnoc(rows[1..], i - 1);
      assert rows[1..][..i] == rows[..i + 1][1..];
      assert rows[1..][..i - 1] == rows[..i][1..];
    }
  }

  lemma {:induction false} ParsedPrefixUpTo(rows: seq<(string, Option<Date>)>, i: nat)
    requires i <= |rows| && forall k :: 0 <= k < i ==> rows[k].1.Some?
    requires i == |rows| || rows[i].1.None?
    ensures ParsedPrefix(rows) == ParsedPrefix(rows[..i])
    decreases i
  {
    if i == |rows| {
      assert rows[..i] == rows;
    } else if i > 0 {
      ParsedPrefixUpTo(rows[1..], i - 1);
      assert rows[1..][..i - 1] == rows[..i][1..];
    }
  }
}
