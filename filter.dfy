/**
  `filter_anniversaries`: for every person of the roster and every entry of
  the years table built from the session's anniversary types, build the
  anniversary date and keep the row when it falls in the calculation month.
*/
module Filter {
  import opened Wrappers
  import opened Calendar
  import opened Labels
  import opened OrderedMap

  /** A roster row: name and parsed start date. */
  type Person = (string, Date)

  /** An entry of the years table: number of years and the label it came from. */
  type Milestone = (int, string)

  type Candidate = (Person, Milestone)

  /** One row of the resulting data frame. */
  datatype Event = Event(name: string, date: Date, kind: string, years: int)

  /** The rows of the result, and the names for which a date error was reported. */
  datatype Report = Report(rows: seq<Event>, failed: seq<string>)

  /** What the loop body does with one (person, milestone) pair.  `Overflow`
      is the `OverflowError` of a target year beyond the C `int` range, which
      the `except ValueError` does not catch. */
  datatype Outcome = Emitted(event: Event) | OutOfPeriod | DateError | Overflow

  /** Why `filter_anniversaries` raises instead of returning: a label of the
      years table that does not parse, or a target year that overflows. */
  datatype FilterError = LabelError(error: ParseError) | YearOverflow

  /** Pairs each label with its parse result; the first failure stops the
      whole comprehension. */
  function Collect(parsed: seq<Result<int, ParseError>>, labels: seq<string>): (r: Result<seq<Milestone>, ParseError>)
    requires |parsed| == |labels|
    ensures r.Success? <==> (forall i :: 0 <= i < |parsed| ==> parsed[i].Success?)
    ensures r.Success? ==> |r.value| == |labels|
    ensures r.Success? ==> (forall i :: 0 <= i < |labels| ==> r.value[i] == (parsed[i].value, labels[i]))
    decreases |labels|
  {
    if |labels| == 0 then Success([])
    else
      var n := |labels| - 1;
      match Collect(parsed[..n], labels[..n])
      case Failure(e) => Failure(e)
      case Success(ps) =>
        match parsed[n]
        case Failure(e) => Failure(e)
        case Success(y) => Success(ps + [(y, labels[n])])
  }

  /** The error reported is that of the first failure. */
  lemma {:induction false} CollectFirstError(parsed: seq<Result<int, ParseError>>, labels: seq<string>, i: nat)
    requires |parsed| == |labels|
    requires i < |parsed| && parsed[i].Failure?
    requires forall j :: 0 <= j < i ==> parsed[j].Success?
    ensures Collect(parsed, labels) == Failure(parsed[i].error)
    decreases |labels|
  {
    var n := |labels| - 1;
    if i < n {
      CollectFirstError(parsed[..n], labels[..n], i);
    } else {
      assert Collect(parsed[..n], labels[..n]).Success?;
    }
  }

  function ParseAll(labels: seq<string>): (parsed: seq<Result<int, ParseError>>)
    ensures |parsed| == |labels|
    ensures forall i :: 0 <= i < |labels| ==> parsed[i] == ParseLabel(labels[i])
  {
    seq(|labels|, i requires 0 <= i < |labels| => ParseLabel(labels[i]))
  }

  /** Each label paired with its number of years, in order; the first label
      that does not parse stops the whole comprehension with its error. */
  function ParsePairs(labels: seq<string>): Result<seq<Milestone>, ParseError>
  {
    Collect(ParseAll(labels), labels)
  }

  /** `{int(ann.split()[0]): ann for ann in anniversary_types}` */
  function YearsTable(labels: seq<string>): Result<seq<Milestone>, ParseError>
  {
    match ParsePairs(labels)
    case Failure(e) => Failure(e)
    case Success(ps) => Success(PutAll([], ps))
  }

  /** What the loop body computes for one pair. */
  function Consider(p: Person, m: Milestone, period: Period): (o: Outcome)
    ensures o.Overflow? <==> !FitsCInt(p.1.year + m.0)
    ensures o.DateError? <==> FitsCInt(p.1.year + m.0) && AnniversaryDate(p.1, m.0).None?
    ensures o.Emitted? <==> AnniversaryDate(p.1, m.0).Some? && InPeriod(AnniversaryDate(p.1, m.0).value, period)
    ensures o.Emitted? ==> (o.event.name == p.0 && o.event.kind == m.1 && o.event.years == m.0
      && AnniversaryDate(p.1, m.0) == Some(o.event.date))
  {
    if !FitsCInt(p.1.year + m.0) then Overflow
    else
    match AnniversaryDate(p.1, m.0)
    case None => DateError
    case Some(d) => if InPeriod(d, period) then Emitted(Event(p.0, d, m.1, m.0)) else OutOfPeriod
  }

  /** The pairs one person contributes, in table order. */
  function PersonCandidates(p: Person, table: seq<Milestone>): seq<Candidate>
  {
    seq(|table|, j requires 0 <= j < |table| => (p, table[j]))
  }

  /** The cross product, person by person. */
  function Candidates(roster: seq<Person>, table: seq<Milestone>): seq<Candidate>
    decreases |roster|
  {
    if |roster| == 0 then []
    else
      var n := |roster| - 1;
      Candidates(roster[..n], table) + PersonCandidates(roster[n], table)
  }

  /** The row a candidate contributes: one when it is emitted, none otherwise. */
  function Emit(c: Candidate, period: Period): seq<Event>
  {
    var o := Consider(c.0, c.1, period);
    if o.Emitted? then [o.event] else []
  }

  /** The name a candidate reports with an error, if any. */
  function Fail(c: Candidate, period: Period): seq<string>
  {
    if Consider(c.0, c.1, period).DateError? then [c.0.0] else []
  }

  /** The name of a candidate whose target year overflows, if it does. */
  function Overflowing(c: Candidate, period: Period): seq<string>
  {
    if Consider(c.0, c.1, period).Overflow? then [c.0.0] else []
  }

  /** `f` applied to every element and the results concatenated, in order. */
  function Gather<T, U>(f: T -> seq<U>, s: seq<T>): seq<U>
    decreases |s|
  {
    if |s| == 0 then [] else Gather(f, s[..|s| - 1]) + f(s[|s| - 1])
  }

  lemma GatherSnoc<T, U>(f: T -> seq<U>, s: seq<T>, x: T)
    ensures Gather(f, s + [x]) == Gather(f, s) + f(x)
  {
    assert (s + [x])[..|s|] == s;
  }

  lemma {:induction false} GatherAppend<T, U>(f: T -> seq<U>, a: seq<T>, b: seq<T>)
    ensures Gather(f, a + b) == Gather(f, a) + Gather(f, b)
    decreases |b|
  {
    if |b| == 0 {
      assert a + b == a;
    } else {
      var n := |b| - 1;
      GatherAppend(f, a, b[..n]);
      assert (a + b)[..|a + b| - 1] == a + b[..n];
      assert (a + b)[|a + b| - 1] == b[n];
    }
  }

  /** The emitted rows, in candidate order. */
  function Rows(cs: seq<Candidate>, period: Period): seq<Event>
  {
    Gather(c => Emit(c, period), cs)
  }

  /** The names reported with an error, in candidate order. */
  function Failures(cs: seq<Candidate>, period: Period): seq<string>
  {
    Gather(c => Fail(c, period), cs)
  }

  /** The names of the candidates that overflow, in candidate order. */
  function Overflows(cs: seq<Candidate>, period: Period): seq<string>
  {
    Gather(c => Overflowing(c, period), cs)
  }

  /** The positions of the candidates that emit a row. */
  function Origins(cs: seq<Candidate>, period: Period): seq<nat>
    decreases |cs|
  {
    if |cs| == 0 then []
    else
      var n := |cs| - 1;
      Origins(cs[..n], period) + (if Consider(cs[n].0, cs[n].1, period).Emitted? then [n] else [])
  }

  lemma PersonCandidatesSnoc(p: Person, table: seq<Milestone>, j: nat)
    requires j < |table|
    ensures PersonCandidates(p, table[..j + 1]) == PersonCandidates(p, table[..j]) + [(p, table[j])]
  {
  }

  lemma CandidatesSnoc(roster: seq<Person>, table: seq<Milestone>, i: nat)
    requires i < |roster|
    ensures Candidates(roster[..i + 1], table) == Candidates(roster[..i], table) + PersonCandidates(roster[i], table)
  {
    assert roster[..i + 1][..i] == roster[..i];
  }

  lemma RowsSnoc(cs: seq<Candidate>, c: Candidate, period: Period)
    ensures Rows(cs + [c], period) == Rows(cs, period) + Emit(c, period)
    ensures Failures(cs + [c], period) == Failures(cs, period) + Fail(c, period)
    ensures Overflows(cs + [c], period) == Overflows(cs, period) + Overflowing(c, period)
  {
    GatherSnoc(c => Emit(c, period), cs, c);
    GatherSnoc(c => Fail(c, period), cs, c);
    GatherSnoc(c => Overflowing(c, period), cs, c);
  }

  /** The result of `filter_anniversaries`; an empty roster returns before the
      labels are parsed, and one overflowing pair anywhere aborts the call. */
  function FilterSpec(roster: seq<Person>, period: Period, labels: seq<string>): Result<Report, FilterError>
  {
    if |roster| == 0 then Success(Report([], []))
    else
      match YearsTable(labels)
      case Failure(e) => Failure(LabelError(e))
      case Success(table) =>
        var cs := Candidates(roster, table);
        if |Overflows(cs, period)| > 0 then Failure(YearOverflow)
        else Success(Report(Rows(cs, period), Failures(cs, period)))
  }

  lemma RowsAppend(a: seq<Candidate>, b: seq<Candidate>, period: Period)
    ensures Rows(a + b, period) == Rows(a, period) + Rows(b, period)
    ensures Failures(a + b, period) == Failures(a, period) + Failures(b, period)
    ensures Overflows(a + b, period) == Overflows(a, period) + Overflows(b, period)
  {
    GatherAppend(c => Emit(c, period), a, b);
    GatherAppend(c => Fail(c, period), a, b);
    GatherAppend(c => Overflowing(c, period), a, b);
  }

  /** The inner loop of `filter_anniversaries`: one person against every
      entry of the years table, in table order; `overflow` where an entry
      raised `OverflowError` and the loop was left there. */
  method PersonMatches(person: Person, table: seq<Milestone>, period: Period)
    returns (rows: seq<Event>, failed: seq<string>, overflow: bool)
    ensures overflow <==> |Overflows(PersonCandidates(person, table), period)| > 0
    ensures !overflow ==> rows == Rows(PersonCandidates(person, table), period)
    ensures !overflow ==> failed == Failures(PersonCandidates(person, table), period)
  {
    rows, failed := [], [];
    var j := 0;
    assert PersonCandidates(person, table[..0]) == [];
    while j < |table|
      invariant 0 <= j <= |table|
      invariant rows == Rows(PersonCandidates(person, table[..j]), period)
      invariant failed == Failures(PersonCandidates(person, table[..j]), period)
      invariant |Overflows(PersonCandidates(person, table[..j]), period)| == 0
    {
      var outcome := Consider(person, table[j], period);
      RowsSnoc(PersonCandidates(person, table[..j]), (person, table[j]), period);
      PersonCandidatesSnoc(person, table, j);
      if outcome.Overflow? {
        OverflowsPrefix(PersonCandidates(person, table), j + 1, period);
        return rows, failed, true;
      }
      if outcome.Emitted? {
        rows := rows + [outcome.event];
      } else if outcome.DateError? {
        failed := failed + [person.0];
      }
      j := j + 1;
    }
    assert table[..|table|] == table;
    overflow := false;
  }

  /** An overflow among the first `k` candidates is an overflow of all of them. */
  lemma OverflowsPrefix(cs: seq<Candidate>, k: nat, period: Period)
    requires k <= |cs| && |Overflows(cs[..k], period)| > 0
    ensures |Overflows(cs, period)| > 0
  {
    assert cs == cs[..k] + cs[k..];
    RowsAppend(cs[..k], cs[k..], period);
  }

  /** The cross product of a roster is that of its first `k` people followed
      by that of the others. */
  lemma {:induction false} CandidatesSplit(roster: seq<Person>, table: seq<Milestone>, k: nat)
    requires k <= |roster|
    ensures Candidates(roster, table) == Candidates(roster[..k], table) + Candidates(roster[k..], table)
    decreases |roster|
  {
    if k == |roster| {
      assert roster[..k] == roster;
      assert Candidates(roster[k..], table) == [];
    } else {
      var n := |roster| - 1;
      CandidatesSplit(roster[..n], table, k);
      assert roster[..n][..k] == roster[..k];
      var rest := roster[k..];
      assert rest[..|rest| - 1] == roster[..n][k..];
      assert rest[|rest| - 1] == roster[n];
    }
  }

  /** Some candidate overflows exactly when `Overflows` is not empty. */
  lemma {:induction false} OverflowsNonEmpty(cs: seq<Candidate>, period: Period)
    ensures |Overflows(cs, period)| > 0 <==> exists a :: 0 <= a < |cs| && Consider(cs[a].0, cs[a].1, period).Overflow?
    decreases |cs|
  {
    if |cs| > 0 {
      var n := |cs| - 1;
      var prefix := cs[..n];
      OverflowsNonEmpty(prefix, period);
      assert cs == prefix + [cs[n]];
      RowsSnoc(prefix, cs[n], period);
      if exists a :: 0 <= a < |prefix| && Consider(prefix[a].0, prefix[a].1, period).Overflow? {
        var a :| 0 <= a < |prefix| && Consider(prefix[a].0, prefix[a].1, period).Overflow?;
        assert cs[a] == prefix[a];
      }
      if exists a :: 0 <= a < |cs| && Consider(cs[a].0, cs[a].1, period).Overflow? {
        var a :| 0 <= a < |cs| && Consider(cs[a].0, cs[a].1, period).Overflow?;
        if a < n {
          assert cs[a] == prefix[a];
        }
      }
    }
  }

  lemma MulSucc(n: nat, k: nat)
    ensures (n + 1) * k == n * k + k
  {
  }

  lemma {:induction false} CandidatesLength(roster: seq<Person>, table: seq<Milestone>)
    ensures |Candidates(roster, table)| == |roster| * |table|
    decreases |roster|
  {
    if |roster| > 0 {
      var n := |roster| - 1;
      CandidatesLength(roster[..n], table);
      MulSucc(n, |table|);
    }
  }

  /** The cross product is in row-major order: person `i` with table entry
      `j` is candidate number `i * |table| + j`. */
  lemma {:induction false} CandidateAt(roster: seq<Person>, table: seq<Milestone>, i: nat, j: nat)
    requires i < |roster| && j < |table|
    ensures i * |table| + j < |Candidates(roster, table)|
    ensures Candidates(roster, table)[i * |table| + j] == (roster[i], table[j])
    decreases |roster|
  {
    var n := |roster| - 1;
    var k := |table|;
    CandidatesLength(roster[..n], table);
    CandidatesLength(roster, table);
    var prefix := Candidates(roster[..n], table);
    assert |prefix| == n * k;
    if i < n {
      CandidateAt(roster[..n], table, i, j);
    } else {
      assert i * k + j == |prefix| + j;
    }
  }

  /** The rows are exactly the emitted candidates, in candidate order:
      `Origins` lists, in increasing order, the position of the candidate
      each row comes from, and every emitted candidate is listed. */
  lemma {:induction false} RowsOrigins(cs: seq<Candidate>, period: Period)
    ensures |Origins(cs, period)| == |Rows(cs, period)|
    ensures forall p :: 0 <= p < |Origins(cs, period)| ==>
      Origins(cs, period)[p] < |cs| &&
      Consider(cs[Origins(cs, period)[p]].0, cs[Origins(cs, period)[p]].1, period) == Emitted(Rows(cs, period)[p])
    ensures forall p, q :: 0 <= p < q < |Origins(cs, period)| ==> Origins(cs, period)[p] < Origins(cs, period)[q]
    ensures forall a :: 0 <= a < |cs| && Consider(cs[a].0, cs[a].1, period).Emitted? ==> a in Origins(cs, period)
    decreases |cs|
  {
    if |cs| > 0 {
      var n := |cs| - 1;
      var prefix := cs[..n];
      RowsOrigins(prefix, period);
      var o := Origins(cs, period);
      var o' := Origins(prefix, period);
      var rows := Rows(cs, period);
      var rows' := Rows(prefix, period);
      assert |o| == |rows|;
      forall p | 0 <= p < |o|
        ensures o[p] < |cs|
        ensures Consider(cs[o[p]].0, cs[o[p]].1, period) == Emitted(rows[p])
      {
        if p < |o'| {
          assert o[p] == o'[p] && rows[p] == rows'[p] && cs[o[p]] == prefix[o'[p]];
        }
      }
      forall a | 0 <= a < |cs| && Consider(cs[a].0, cs[a].1, period).Emitted?
        ensures a in o
      {
        if a < n {
          assert prefix[a] == cs[a];
          assert a in o';
        } else {
          assert o[|o| - 1] == n;
        }
      }
    }
  }

  lemma {:induction false} RowsWithinCandidates(cs: seq<Candidate>, period: Period)
    ensures |Rows(cs, period)| + |Failures(cs, period)| <= |cs|
    decreases |cs|
  {
    if |cs| > 0 {
      var n := |cs| - 1;
      RowsWithinCandidates(cs[..n], period);
    }
  }

  /** The years table keeps one entry per distinct number of years: at the
      position of the first label with that number, holding the last such
      label.  It fails exactly when some label does not parse, with the
      error of the first one. */
  lemma YearsTableSpec(labels: seq<string>)
    ensures YearsTable(labels).Success? <==> (forall i :: 0 <= i < |labels| ==> ParseLabel(labels[i]).Success?)
    ensures YearsTable(labels).Success? ==>
      var table := YearsTable(labels).value;
      var pairs := ParsePairs(labels).value;
      && DistinctKeys(table)
      && |table| <= |labels|
      && Keys(table) == FirstOccurrences(Keys(pairs))
      && (forall i :: 0 <= i < |labels| && (forall j :: i < j < |labels| ==> pairs[j].0 != pairs[i].0) ==>
            Lookup(table, pairs[i].0) == Some(labels[i]))
  {
    var r := ParsePairs(labels);
    if r.Success? {
      TableOfPairs(r.value);
    }
  }

  /** The dictionary built from a list of pairs, as `YearsTableSpec` states it. */
  lemma TableOfPairs(pairs: seq<Milestone>)
    ensures DistinctKeys(PutAll([], pairs))
    ensures |PutAll([], pairs)| <= |pairs|
    ensures Keys(PutAll([], pairs)) == FirstOccurrences(Keys(pairs))
    ensures forall i :: 0 <= i < |pairs| && (forall j :: i < j < |pairs| ==> pairs[j].0 != pairs[i].0) ==>
      Lookup(PutAll([], pairs), pairs[i].0) == Some(pairs[i].1)
  {
    PutAllDistinct([], pairs);
    PutAllKeys([], pairs);
    var empty: seq<Milestone> := [];
    assert Keys(empty) + Keys(pairs) == Keys(pairs);
    PutAllSize([], pairs);
    forall i | 0 <= i < |pairs| && (forall j :: i < j < |pairs| ==> pairs[j].0 != pairs[i].0)
      ensures Lookup(PutAll([], pairs), pairs[i].0) == Some(pairs[i].1)
    {
      PutAllLast([], pairs, i);
    }
  }

  lemma YearsTableError(labels: seq<string>, i: nat)
    requires i < |labels| && ParseLabel(labels[i]).Failure?
    requires forall j :: 0 <= j < i ==> ParseLabel(labels[j]).Success?
    ensures YearsTable(labels) == Failure(ParseLabel(labels[i]).error)
  {
    CollectFirstError(ParseAll(labels), labels, i);
  }

  /** An empty roster gives no rows, whatever the labels; so does an empty
      list of anniversary types. */
  lemma EmptyInputs(roster: seq<Person>, period: Period, labels: seq<string>)
    requires |roster| == 0 || |labels| == 0
    ensures FilterSpec(roster, period, labels) == Success(Report([], []))
  {
    if |roster| > 0 {
      assert YearsTable(labels) == Success([]);
      CandidatesLength(roster, []);
    }
  }

  lemma MulMono(x: nat, y: nat, k: nat)
    requires x <= y
    ensures x * k <= y * k
  {
  }

  lemma DivMod(a: nat, n: nat, k: nat)
    requires a < n * k
    ensures k > 0 && a / k < n && a == (a / k) * k + a % k && a % k < k
  {
    if k == 0 {
      assert false;
    }
    if a / k >= n {
      MulMono(n, a / k, k);
      assert false;
    }
  }

  /** Every candidate that emits a row has it among the rows. */
  lemma RowsComplete(cs: seq<Candidate>, period: Period, a: nat)
    requires a < |cs| && Consider(cs[a].0, cs[a].1, period).Emitted?
    ensures exists p :: 0 <= p < |Rows(cs, period)| && Rows(cs, period)[p] == Consider(cs[a].0, cs[a].1, period).event
  {
    var o := Origins(cs, period);
    RowsOrigins(cs, period);
    var p :| 0 <= p < |o| && o[p] == a;
    assert Rows(cs, period)[p] == Consider(cs[a].0, cs[a].1, period).event;
  }

  /** Every (person, table entry) pair that emits a row has it among the rows. */
  lemma CrossRowsComplete(roster: seq<Person>, table: seq<Milestone>, period: Period, i: nat, j: nat)
    requires i < |roster| && j < |table|
    requires Consider(roster[i], table[j], period).Emitted?
    ensures exists p ::
      0 <= p < |Rows(Candidates(roster, table), period)| &&
      Rows(Candidates(roster, table), period)[p] == Consider(roster[i], table[j], period).event
  {
    var cs := Candidates(roster, table);
    var a := i * |table| + j;
    assert a < |cs| && cs[a] == (roster[i], table[j]) by {
      CandidateAt(roster, table, i, j);
    }
    RowsComplete(cs, period, a);
  }

  /** A row is emitted for exactly the (person, table entry) pairs whose
      anniversary date exists and lies in the calculation month (see
      `Consider` for what each row then carries). */
  lemma CrossMembership(roster: seq<Person>, table: seq<Milestone>, period: Period, e: Event)
    ensures e in Rows(Candidates(roster, table), period) <==>
      exists i, j :: 0 <= i < |roster| && 0 <= j < |table| && Consider(roster[i], table[j], period) == Emitted(e)
  {
    var rows := Rows(Candidates(roster, table), period);
    if e in rows {
      var p :| 0 <= p < |rows| && rows[p] == e;
      CrossRowsSound(roster, table, period, p);
    }
    if exists i, j :: 0 <= i < |roster| && 0 <= j < |table| && Consider(roster[i], table[j], period) == Emitted(e) {
      var i, j :| 0 <= i < |roster| && 0 <= j < |table| && Consider(roster[i], table[j], period) == Emitted(e);
      CrossRowsComplete(roster, table, period, i, j);
    }
  }

  /** Row `p` comes from the candidate at position `Origins[p]`, and later
      rows come from later candidates. */
  lemma OriginAt(cs: seq<Candidate>, period: Period, p: nat)
    requires p < |Rows(cs, period)|
    ensures p < |Origins(cs, period)| && Origins(cs, period)[p] < |cs|
    ensures Consider(cs[Origins(cs, period)[p]].0, cs[Origins(cs, period)[p]].1, period) == Emitted(Rows(cs, period)[p])
    ensures forall q :: p < q < |Origins(cs, period)| ==> Origins(cs, period)[p] < Origins(cs, period)[q]
  {
    RowsOrigins(cs, period);
  }

  /** Rows follow the roster order, and for one person the order of the
      table: row `p` comes from person `o[p] / |table|` with table entry
      `o[p] % |table|`, and the candidate positions `o` strictly increase. */
  lemma CrossOrder(roster: seq<Person>, table: seq<Milestone>, period: Period, p: nat)
    requires p < |Rows(Candidates(roster, table), period)|
    ensures var o := Origins(Candidates(roster, table), period);
      && p < |o| && |table| > 0 && o[p] / |table| < |roster|
      && Consider(roster[o[p] / |table|], table[o[p] % |table|], period) == Emitted(Rows(Candidates(roster, table), period)[p])
      && (forall q :: p < q < |o| ==> o[p] < o[q])
  {
    var cs := Candidates(roster, table);
    var o := Origins(cs, period);
    OriginAt(cs, period, p);
    var a := o[p];
    assert |table| > 0 && a / |table| < |roster| && cs[a] == (roster[a / |table|], table[a % |table|]) by {
      CandidatesLength(roster, table);
      DivMod(a, |roster|, |table|);
      CandidateAt(roster, table, a / |table|, a % |table|);
    }
  }

  /** Every row comes from some (person, table entry) pair that emits it. */
  lemma CrossRowsSound(roster: seq<Person>, table: seq<Milestone>, period: Period, p: nat)
    requires p < |Rows(Candidates(roster, table), period)|
    ensures exists i, j ::
      0 <= i < |roster| && 0 <= j < |table| &&
      Consider(roster[i], table[j], period) == Emitted(Rows(Candidates(roster, table), period)[p])
  {
    CrossOrder(roster, table, period, p);
    var o := Origins(Candidates(roster, table), period);
    var i, j := o[p] / |table|, o[p] % |table|;
    assert 0 <= i < |roster| && 0 <= j < |table|;
    assert Consider(roster[i], table[j], period) == Emitted(Rows(Candidates(roster, table), period)[p]);
  }

  /** Where `Overflows` is not empty, some candidate overflows. */
  lemma OverflowWitness(cs: seq<Candidate>, period: Period) returns (a: nat)
    requires |Overflows(cs, period)| > 0
    ensures a < |cs| && !FitsCInt(cs[a].0.1.year + cs[a].1.0)
  {
    OverflowsNonEmpty(cs, period);
    a :| 0 <= a < |cs| && Consider(cs[a].0, cs[a].1, period).Overflow?;
  }

  /** An overflowing candidate makes `Overflows` non-empty. */
  lemma OverflowAt(cs: seq<Candidate>, period: Period, a: nat)
    requires a < |cs| && !FitsCInt(cs[a].0.1.year + cs[a].1.0)
    ensures |Overflows(cs, period)| > 0
  {
    assert Consider(cs[a].0, cs[a].1, period).Overflow?;
    OverflowsNonEmpty(cs, period);
  }

  /** Candidate `a` of the cross product pairs person `a / |table|` with
      table entry `a % |table|`. */
  lemma PairOf(roster: seq<Person>, table: seq<Milestone>, a: nat) returns (i: nat, j: nat)
    requires a < |Candidates(roster, table)|
    ensures i < |roster| && j < |table| && Candidates(roster, table)[a] == (roster[i], table[j])
  {
    var k := |table|;
    assert k > 0 && a / k < |roster| && a == (a / k) * k + a % k by {
      CandidatesLength(roster, table);
      DivMod(a, |roster|, k);
    }
    i, j := a / k, a % k;
    CandidateAt(roster, table, i, j);
  }

  /** An overflowing candidate comes from an overflowing pair. */
  lemma OverflowSound(roster: seq<Person>, table: seq<Milestone>, period: Period)
    requires |Overflows(Candidates(roster, table), period)| > 0
    ensures exists i, j :: 0 <= i < |roster| && 0 <= j < |table| && !FitsCInt(roster[i].1.year + table[j].0)
  {
    var a := OverflowWitness(Candidates(roster, table), period);
    var i, j := PairOf(roster, table, a);
    assert 0 <= i < |roster| && 0 <= j < |table| && !FitsCInt(roster[i].1.year + table[j].0);
  }

  /** An overflowing pair makes its candidate overflow. */
  lemma OverflowComplete(roster: seq<Person>, table: seq<Milestone>, period: Period, i: nat, j: nat)
    requires i < |roster| && j < |table| && !FitsCInt(roster[i].1.year + table[j].0)
    ensures |Overflows(Candidates(roster, table), period)| > 0
  {
    var a := i * |table| + j;
    CandidateAt(roster, table, i, j);
    OverflowAt(Candidates(roster, table), period, a);
  }

  /** The call overflows exactly when some (person, table entry) pair has a
      target year beyond the C `int` range. */
  lemma CrossOverflow(roster: seq<Person>, table: seq<Milestone>, period: Period)
    ensures |Overflows(Candidates(roster, table), period)| > 0 <==>
      exists i, j :: 0 <= i < |roster| && 0 <= j < |table| && !FitsCInt(roster[i].1.year + table[j].0)
  {
    if |Overflows(Candidates(roster, table), period)| > 0 {
      OverflowSound(roster, table, period);
    }
    if exists i, j :: 0 <= i < |roster| && 0 <= j < |table| && !FitsCInt(roster[i].1.year + table[j].0) {
      var i, j :| 0 <= i < |roster| && 0 <= j < |table| && !FitsCInt(roster[i].1.year + table[j].0);
      OverflowComplete(roster, table, period, i, j);
    }
  }

  /** `filter_anniversaries` raises `OverflowError` exactly when the roster is
      not empty, the labels parse, and some pair overflows; otherwise a
      result with a parsed years table is the filtered cross product. */
  lemma FilterOverflow(roster: seq<Person>, period: Period, labels: seq<string>)
    ensures FilterSpec(roster, period, labels) == Failure(YearOverflow) <==>
      && |roster| > 0 && YearsTable(labels).Success?
      && exists i, j :: 0 <= i < |roster| && 0 <= j < |YearsTable(labels).value| &&
           !FitsCInt(roster[i].1.year + YearsTable(labels).value[j].0)
  {
    if |roster| > 0 && YearsTable(labels).Success? {
      CrossOverflow(roster, YearsTable(labels).value, period);
    }
  }

  lemma CrossSize(roster: seq<Person>, table: seq<Milestone>, period: Period)
    ensures |Rows(Candidates(roster, table), period)| + |Failures(Candidates(roster, table), period)| <= |roster| * |table|
  {
    RowsWithinCandidates(Candidates(roster, table), period);
    CandidatesLength(roster, table);
  }

  /** `filter_anniversaries`: the outer loop over the roster rows. */
  method FilterAnniversaries(roster: seq<Person>, period: Period, labels: seq<string>)
    returns (r: Result<Report, FilterError>)
    ensures r == FilterSpec(roster, period, labels)
  {
    if |roster| == 0 {
      return Success(Report([], []));
    }
    var parsed := YearsTable(labels);
    if parsed.Failure? {
      return Failure(LabelError(parsed.error));
    }
    var table := parsed.value;
    var rows: seq<Event> := [];
    var failed: seq<string> := [];
    var i := 0;
    while i < |roster|
      invariant 0 <= i <= |roster|
      invariant rows == Rows(Candidates(roster[..i], table), period)
      invariant failed == Failures(Candidates(roster[..i], table), period)
      invariant |Overflows(Candidates(roster[..i], table), period)| == 0
    {
      var personRows, personFailed, overflow := PersonMatches(roster[i], table, period);
      RowsAppend(Candidates(roster[..i], table), PersonCandidates(roster[i], table), period);
      CandidatesSnoc(roster, table, i);
      if overflow {
        CandidatesSplit(roster, table, i + 1);
        OverflowsPrefix(Candidates(roster, table), |Candidates(roster[..i + 1], table)|, period);
        return Failure(YearOverflow);
      }
      rows := rows + personRows;
      failed := failed + personFailed;
      i := i + 1;
    }
    assert roster[..|roster|] == roster;
    r := Success(Report(rows, failed));
  }
}
