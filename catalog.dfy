/**
  The list of anniversary types kept in the session ("Manage Anniversary
  Types"): adding a typed-in label after normalising it to "<n> Years", and
  removing the labels selected for removal one by one.
*/
module Catalog {
  import opened Wrappers
  import opened Labels

  /** The list a new session starts with. */
  const DefaultTypes: seq<string> :=
    ["1 Year", "5 Years", "10 Years", "15 Years", "25 Years", "30 Years", "40 Years", "50 Years"]

  /** What pressing "Add Type" does with the typed text.  `NoToken` is the
      `IndexError` of an empty or blank text, which nothing catches: the
      script run stops and the list is left as it was. */
  datatype AddOutcome =
    | Added(text: string)
    | AlreadyExists(text: string)
    | InvalidFormat
    | NoToken

  /** The outcome of adding `input` to `types`. */
  function ClassifyType(types: seq<string>, input: string): (o: AddOutcome)
    ensures o.NoToken? <==> FirstToken(input).None?
    ensures o.InvalidFormat? <==> ParseLabel(input) == Failure(NotAnInteger)
    ensures (o.Added? || o.AlreadyExists?) ==>
      ParseLabel(input).Success? && o.text == FormatLabel(ParseLabel(input).value)
    ensures o.Added? ==> o.text !in types
    ensures o.AlreadyExists? ==> o.text in types
  {
    match ParseLabel(input)
    case Failure(MissingToken) => NoToken
    case Failure(NotAnInteger) => InvalidFormat
    case Success(years) =>
      var text := FormatLabel(years);
      if text in types then AlreadyExists(text) else Added(text)
  }

  /** The list after adding `input`: the normalised label is appended only
      when that exact string is not already present. */
  function AddTypeResult(types: seq<string>, input: string): (r: seq<string>)
    ensures ClassifyType(types, input).Added? ==> r == types + [ClassifyType(types, input).text]
    ensures !ClassifyType(types, input).Added? ==> r == types
  {
    match ClassifyType(types, input)
    case Added(text) => types + [text]
    case _ => types
  }

  predicate NoDuplicates<T(==)>(s: seq<T>)
  {
    forall i, j :: 0 <= i < j < |s| ==> s[i] != s[j]
  }

  /** A list without repeated labels keeps that property under adding. */
  lemma AddTypeKeepsNoDuplicates(types: seq<string>, input: string)
    requires NoDuplicates(types)
    ensures NoDuplicates(AddTypeResult(types, input))
  {
    var r := AddTypeResult(types, input);
    var o := ClassifyType(types, input);
    if o.Added? {
      forall i, j | 0 <= i < j < |r| ensures r[i] != r[j] {
        if j == |types| {
          assert r[i] == types[i];
        }
      }
    }
  }

  /** The stored label reads back as the number of years that was typed in,
      and adding it is a fixed point: adding the same text again, or the
      stored label itself, finds it already present. */
  lemma AddTypeNormalises(types: seq<string>, input: string)
    ensures ClassifyType(types, input).Added? ==>
      var text := ClassifyType(types, input).text;
      && ParseLabel(text) == ParseLabel(input)
      && ClassifyType(AddTypeResult(types, input), input) == AlreadyExists(text)
      && ClassifyType(AddTypeResult(types, input), text) == AlreadyExists(text)
  {
    if ClassifyType(types, input).Added? {
      FormatLabelRoundTrip(ParseLabel(input).value);
    }
  }

  /** The two labels of the same number of years need not be the same
      string: "1 Year" is in the default list, yet typing "1 Year" adds
      "1 Years". */
  lemma DefaultOneYearAddedAgain()
    ensures ClassifyType(DefaultTypes, "1 Year") == Added("1 Years")
  {
    assert FirstToken("1 Year") == Some("1") by {
      assert TakeToken("1 Year") == "1" by {
        assert TakeToken(" Year") == "";
      }
    }
    assert ParseInt("1") == Some(1) by {
      assert DigitsValue("1") == 1 && DigitCount("1") == 1;
    }
    assert FormatLabel(1) == "1 Years" by {
      assert NatToString(1) == "1";
    }
  }

  /** Position of the first occurrence of `x`, or `|s|` when there is none. */
  function FirstIndex<T(==)>(s: seq<T>, x: T): (i: nat)
    ensures i <= |s|
    ensures i < |s| ==> s[i] == x
    ensures forall j :: 0 <= j < i ==> s[j] != x
    decreases |s|
  {
    if |s| == 0 || s[0] == x then 0 else 1 + FirstIndex(s[1..], x)
  }

  /** `list.remove(x)`: drops the first occurrence of `x`; `None` is the
      `ValueError` raised when `x` is not in the list. */
  function RemoveFirst<T(==)>(s: seq<T>, x: T): (r: Option<seq<T>>)
    ensures r.None? <==> x !in s
    ensures r.Some? ==> FirstIndex(s, x) < |s| && r.value == s[..FirstIndex(s, x)] + s[FirstIndex(s, x) + 1..]
  {
    var i := FirstIndex(s, x);
    if i == |s| then None else Some(s[..i] + s[i + 1..])
  }

  /** Removing one occurrence shortens the list by one and takes exactly one
      `x` out of its multiset of labels. */
  lemma RemoveFirstCounts<T>(s: seq<T>, x: T)
    requires RemoveFirst(s, x).Some?
    ensures |RemoveFirst(s, x).value| == |s| - 1
    ensures multiset(RemoveFirst(s, x).value) == multiset(s) - multiset{x}
  {
    var i := FirstIndex(s, x);
    assert s == s[..i] + [x] + s[i + 1..];
  }

  /** The removal loop: each selected label in turn is removed; the first
      one no longer present raises `ValueError`, which nothing catches, so
      the removals already done stay and `ok` is false. */
  function RemoveEach<T(==)>(s: seq<T>, selected: seq<T>): (r: (seq<T>, bool))
    decreases |selected|
  {
    if |selected| == 0 then (s, true)
    else
      match RemoveFirst(s, selected[0])
      case None => (s, false)
      case Some(t) => RemoveEach(t, selected[1..])
  }

  /** Removing succeeds exactly when every selected label occurs in the list
      at least as many times as it was selected, and then the list loses
      exactly the selected labels. */
  lemma {:induction false} RemoveEachSpec<T>(s: seq<T>, selected: seq<T>)
    ensures RemoveEach(s, selected).1 <==> multiset(selected) <= multiset(s)
    ensures RemoveEach(s, selected).1 ==> multiset(RemoveEach(s, selected).0) == multiset(s) - multiset(selected)
    ensures |RemoveEach(s, selected).0| <= |s|
    decreases |selected|
  {
    if |selected| > 0 {
      var x := selected[0];
      assert selected == [x] + selected[1..];
      assert multiset(selected) == multiset{x} + multiset(selected[1..]);
      match RemoveFirst(s, x)
      case None =>
        assert multiset(s)[x] == 0;
      case Some(t) =>
        RemoveFirstCounts(s, x);
        RemoveEachSpec(t, selected[1..]);
        assert multiset(s)[x] >= 1;
    }
  }

  /** Removing labels the list does not repeat, selected without repetition
      from the list itself (what the multiselect offers), always succeeds. */
  lemma RemoveSelectedSucceeds<T>(s: seq<T>, selected: seq<T>)
    requires NoDuplicates(s) && NoDuplicates(selected)
    requires forall x :: x in selected ==> x in s
    ensures RemoveEach(s, selected).1
  {
    NoDuplicatesMultiset(s);
    NoDuplicatesMultiset(selected);
    forall x ensures multiset(selected)[x] <= multiset(s)[x] {
      if x in selected {
        assert x in multiset(s);
      }
    }
    RemoveEachSpec(s, selected);
  }

  lemma {:induction false} NoDuplicatesMultiset<T>(s: seq<T>)
    requires NoDuplicates(s)
    ensures forall x :: multiset(s)[x] <= 1
    decreases |s|
  {
    if |s| > 0 {
      var n := |s| - 1;
      assert s == s[..n] + [s[n]];
      NoDuplicatesMultiset(s[..n]);
      assert s[n] !in s[..n];
    }
  }
}
