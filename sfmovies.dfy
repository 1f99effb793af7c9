/**
 * Summary statistics over the San Francisco film-locations dataset. A film
 * record maps column names ("Title", "Release Year", "Fun Facts",
 * "Actor 1", ...) to cell text, as the row-to-record conversion produces it;
 * a column the row did not reach is absent (`undefined`).
 */
module SfMovies {
  import opened Wrappers
  import opened Sequences

  type Record = map<string, string>

  /** `datum[field]`: the cell, or `None` for `undefined`. */
  function Field(d: Record, field: string): Option<string>
  {
    if field in d then Some(d[field]) else None
  }

  // ---------------------------------------------------------------------
  // longestFunFact

  /** Reading `datum['Fun Facts'].length` throws unless every record has the column. */
  ghost predicate AllHaveFunFacts(data: seq<Record>)
  {
    forall i :: 0 <= i < |data| ==> "Fun Facts" in data[i]
  }

  /** JavaScript's `.length`: a character outside the Basic Multilingual Plane takes two UTF-16 code units. */
  function CodeUnits(c: char): nat
  {
    if c as int >= 0x1_0000 then 2 else 1
  }

  /** The `.length` of a JavaScript string: its number of UTF-16 code units. */
  function Utf16Length(s: string): (n: nat)
    ensures |s| <= n <= 2 * |s|
  {
    if s == [] then 0 else CodeUnits(s[0]) + Utf16Length(s[1..])
  }

  /** `datum['Fun Facts'].length` */
  function FunFactsLength(d: Record): nat
    requires "Fun Facts" in d
  {
    Utf16Length(d["Fun Facts"])
  }

  /** The accumulator of the reduction: the best record so far and its length. */
  datatype Longest = Longest(datum: Option<Record>, length: nat)

  /**
   * The reduction over `data` from `{datum: undefined, length: 0}`: a record
   * replaces the accumulator only when its fun fact is strictly longer.
   * The accumulator ends with the maximal length and the first record that
   * reaches it, and stays empty when no fun fact is longer than 0.
   */
  function LongestSoFar(data: seq<Record>): (r: Longest)
    requires AllHaveFunFacts(data)
    ensures forall i :: 0 <= i < |data| ==> FunFactsLength(data[i]) <= r.length
    ensures r.datum == None <==> forall i :: 0 <= i < |data| ==> FunFactsLength(data[i]) == 0
    ensures r.datum == None ==> r.length == 0
    ensures r.datum.Some? ==>
      exists i :: 0 <= i < |data| && data[i] == r.datum.value && FunFactsLength(data[i]) == r.length &&
        forall j :: 0 <= j < i ==> FunFactsLength(data[j]) < r.length
  {
    if data == [] then Longest(None, 0)
    else
      var n := |data| - 1;
      var max := LongestSoFar(data[..n]);
      assert forall i :: 0 <= i < n ==> data[..n][i] == data[i];
      if FunFactsLength(data[n]) > max.length then
        Longest(Some(data[n]), FunFactsLength(data[n]))
      else
        max
  }

  /**
   * The film with the longest fun fact: `None` for empty data and whenever
   * every fun fact is empty; otherwise a film of the data whose fun fact is
   * at least as long as every other, the first such one.
   */
  function LongestFunFact(data: seq<Record>): (r: Option<Record>)
    requires AllHaveFunFacts(data)
    ensures data == [] ==> r == None
    ensures r == None <==> forall i :: 0 <= i < |data| ==> FunFactsLength(data[i]) == 0
    ensures r.Some? ==>
      exists i :: 0 <= i < |data| && data[i] == r.value &&
        (forall j :: 0 <= j < |data| ==> FunFactsLength(data[j]) <= FunFactsLength(data[i])) &&
        (forall j :: 0 <= j < i ==> FunFactsLength(data[j]) < FunFactsLength(data[i]))
  {
    LongestSoFar(data).datum
  }

  /**
   * Lengths are UTF-16 code units: two emoji (four code units) beat three
   * letters, so the film with the emoji is the longest.
   */
  lemma LongestCountsCodeUnits()
    ensures var emoji := map["Fun Facts" := "\U{1F62C}\U{1F62C}"];
      LongestFunFact([emoji, map["Fun Facts" := "abc"]]) == Some(emoji)
  {
    var emoji: Record := map["Fun Facts" := "\U{1F62C}\U{1F62C}"];
    var letters: Record := map["Fun Facts" := "abc"];
    assert FunFactsLength(emoji) == 4;
    assert FunFactsLength(letters) == 3;
    assert [emoji, letters][..1] == [emoji];
  }

  // ---------------------------------------------------------------------
  // getTitlesByYear

  /** Upper-casing of the ASCII letters; every other character is kept. */
  function UpperChar(c: char): char
  {
    if 'a' <= c <= 'z' then (c as int - 32) as char else c
  }

  function Upper(s: string): (r: string)
    ensures |r| == |s|
  {
    seq(|s|, i requires 0 <= i < |s| => UpperChar(s[i]))
  }

  /** `datum['Release Year'] == year` */
  predicate ReleasedIn(d: Record, year: string)
  {
    Field(d, "Release Year") == Some(year)
  }

  /** Reading the title of a film released in `year` throws unless it has one. */
  ghost predicate TitledWhenReleasedIn(data: seq<Record>, year: string)
  {
    forall i :: 0 <= i < |data| && ReleasedIn(data[i], year) ==> "Title" in data[i]
  }

  /** The label of a film: its title in capitals followed by the year in parentheses. */
  function Label(d: Record, year: string): string
    requires "Title" in d
  {
    Upper(d["Title"]) + " (" + year + ")"
  }

  /** `data.filter(datum => datum['Release Year'] == year).map(label)` */
  function LabelsReleasedIn(data: seq<Record>, year: string): (r: seq<string>)
    requires TitledWhenReleasedIn(data, year)
    ensures forall t :: t in r <==> exists i :: 0 <= i < |data| && ReleasedIn(data[i], year) && t == Label(data[i], year)
  {
    if data == [] then []
    else
      var n := |data| - 1;
      assert forall i :: 0 <= i < n ==> data[..n][i] == data[i];
      LabelsReleasedIn(data[..n], year) + if ReleasedIn(data[n], year) then [Label(data[n], year)] else []
  }

  /**
   * `Array.from(new Set(s))`: each element once, in the order of its first
   * occurrence in `s`.
   */
  function Dedupe(s: seq<string>): (r: seq<string>)
    ensures forall x :: x in r <==> x in s
    ensures Distinct(r)
    ensures forall i, j :: 0 <= i < j < |r| ==> FirstIndex(s, r[i]) < FirstIndex(s, r[j])
  {
    if s == [] then []
    else
      var n := |s| - 1;
      var seen := Dedupe(s[..n]);
      assert s == s[..n] + [s[n]];
      FirstIndexAfterPrefix(s[..n], [s[n]]);
      if s[n] in seen then seen
      else
        FirstIndexLast(s[..n], s[n]);
        seen + [s[n]]
  }

  lemma FirstIndexAfterPrefix(s: seq<string>, t: seq<string>)
    ensures forall x :: x in s ==> x in s + t && FirstIndex(s + t, x) == FirstIndex(s, x)
  {
    forall x | x in s
      ensures x in s + t && FirstIndex(s + t, x) == FirstIndex(s, x)
    {
      FirstIndexPrefix(s, t, x);
    }
  }

  /**
   * The unique labels of the films released in `year`: every label is that
   * of such a film, every such film's label is there, none twice, and in the
   * order in which the labels first occur in the filtered data.
   */
  function TitlesByYear(data: seq<Record>, year: string): (r: seq<string>)
    requires TitledWhenReleasedIn(data, year)
    ensures forall t :: t in r <==> t in LabelsReleasedIn(data, year)
    ensures forall t :: t in r <==> exists i :: 0 <= i < |data| && ReleasedIn(data[i], year) && t == Label(data[i], year)
    ensures Distinct(r)
    ensures forall i, j :: 0 <= i < j < |r| ==>
      FirstIndex(LabelsReleasedIn(data, year), r[i]) < FirstIndex(LabelsReleasedIn(data, year), r[j])
  {
    Dedupe(LabelsReleasedIn(data, year))
  }

  // ---------------------------------------------------------------------
  // actorCounts

  const ActorFields: seq<string> := ["Actor 1", "Actor 2", "Actor 3"]

  /** JavaScript truthiness of a cell: neither `undefined` nor the empty string. */
  predicate Truthy(key: Option<string>)
  {
    key.Some? && key.value != ""
  }

  function CountOf(counts: map<string, nat>, name: string): nat
  {
    if name in counts then counts[name] else 0
  }

  /**
   * `increment(obj, key)`: a falsy key is ignored; otherwise the key's count
   * goes up by one, a missing (or zero) count becoming 1.
   */
  function Increment(counts: map<string, nat>, key: Option<string>): (r: map<string, nat>)
    ensures !Truthy(key) ==> r == counts
    ensures Truthy(key) ==> r == counts[key.value := CountOf(counts, key.value) + 1]
    ensures forall name :: name != "" ==> CountOf(r, name) == CountOf(counts, name) + if key == Some(name) then 1 else 0
    ensures forall name :: name in r <==> name in counts || (Truthy(key) && name == key.value)
  {
    if !Truthy(key) then counts
    else if key.value !in counts || counts[key.value] == 0 then counts[key.value := 1]
    else counts[key.value := counts[key.value] + 1]
  }

  /** How many of the three actor columns of `d` hold `name`. */
  function Tally(d: Record, name: string): nat
  {
    (if Field(d, ActorFields[0]) == Some(name) then 1 else 0) +
    (if Field(d, ActorFields[1]) == Some(name) then 1 else 0) +
    (if Field(d, ActorFields[2]) == Some(name) then 1 else 0)
  }

  /** Reference definition: the number of (film, actor column) pairs that hold `name`. */
  function Occurrences(data: seq<Record>, name: string): nat
  {
    if data == [] then 0
    else
      var n := |data| - 1;
      Occurrences(data[..n], name) + Tally(data[n], name)
  }

  /**
   * The reducer of `actorCounts`: increments the counts of the three actor
   * columns of one film. Every non-empty name gains its tally; the empty
   * name never becomes a key.
   */
  function CountActors(counts: map<string, nat>, d: Record): (r: map<string, nat>)
    ensures forall name :: name != "" ==> CountOf(r, name) == CountOf(counts, name) + Tally(d, name)
    ensures forall name :: name in r <==> name in counts || (name != "" && Tally(d, name) > 0)
  {
    var first := Increment(counts, Field(d, ActorFields[0]));
    var second := Increment(first, Field(d, ActorFields[1]));
    Increment(second, Field(d, ActorFields[2]))
  }

  /**
   * The actor frequency table: exactly the non-empty names that occur in some
   * actor column, each mapped to its number of occurrences (hence at least 1).
   */
  method ActorCounts(data: seq<Record>) returns (counts: map<string, nat>)
    ensures forall name :: name in counts <==> name != "" && Occurrences(data, name) > 0
    ensures forall name :: name in counts ==> counts[name] == Occurrences(data, name) && counts[name] >= 1
    ensures data == [] ==> counts == map[]
  {
    counts := map[];
    for i := 0 to |data|
      invariant forall name :: name in counts <==> name != "" && Occurrences(data[..i], name) > 0
      invariant forall name :: name in counts ==> counts[name] == Occurrences(data[..i], name)
    {
      assert data[..i + 1][..i] == data[..i];
      counts := CountActors(counts, data[i]);
    }
    assert data[..|data|] == data;
  }
}
