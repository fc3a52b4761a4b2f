/** The drill-down levels and the decisions made on them: which level comes
    next and with which filters (`_diveDeeper`, js/app.js:447-465), what
    request is sent (`_loadData`, js/app.js:466-479) and where its answer is
    routed (js/app.js:482-488). */
module Levels {
  import opened Types

  /** `dataLevels`, from the coarsest level to the finest. */
  const DataLevels: seq<string> :=
    ["agency", "federal_account", "program_activity", "object_class", "recipient", "award"]

  const RootLevel: string := "agency"
  const LastLevel: string := "award"

  /** `Array.prototype.indexOf`: the first index holding `x`, or -1. */
  function IndexOf(s: seq<string>, x: string): (i: int)
    ensures -1 <= i < |s|
    ensures i == -1 <==> x !in s
    ensures i >= 0 ==> s[i] == x && x !in s[..i]
  {
    if s == [] then -1
    else if s[0] == x then 0
    else
      var j := IndexOf(s[1..], x);
      assert j >= 0 ==> s[..j + 1] == [s[0]] + s[1..][..j];
      if j < 0 then -1 else j + 1
  }

  /** No level name occurs twice. */
  lemma {:induction false} LevelsDistinct()
    ensures forall a, b :: 0 <= a < b < |DataLevels| ==> DataLevels[a] != DataLevels[b]
  {
  }

  lemma {:induction false} IndexOfLevel(k: nat)
    requires k < |DataLevels|
    ensures IndexOf(DataLevels, DataLevels[k]) == k
  {
    LevelsDistinct();
  }

  /** What the completion of the "thrown up" animation does next: bring the
      cell back down, or fetch the next level with these filters. */
  datatype Dive = Restore | Fetch(level: string, filters: Filters)

  /** `_diveDeeper` on a cell holding `data`, registered with `filters`. The
      new filter object is built fresh, so the cell's own filters are not
      touched. */
  function DiveDeeper(data: SpendingRecord, filters: Filters): Dive {
    var current := IndexOf(DataLevels, data.kind);
    if current + 1 >= |DataLevels| then Restore
    else Fetch(DataLevels[current + 1], filters[data.kind := data.id])
  }

  /** A cell at the last level (award) is restored and nothing is fetched;
      every other cell leads to a fetch. */
  lemma {:induction false} DiveRestoresOnlyAtLastLevel(data: SpendingRecord, filters: Filters)
    ensures DiveDeeper(data, filters).Restore? <==> data.kind == LastLevel
  {
    var i := IndexOf(DataLevels, data.kind);
    if data.kind == LastLevel {
      IndexOfLevel(5);
    } else if i >= 0 {
      assert DataLevels[i] == data.kind;
      assert i != 5;
    }
  }

  /** A cell at any level but the last fetches the next level, with its
      filters extended by `{level: id}`: every other entry is kept as it
      was, and the drill never leads back to the root level. */
  lemma {:induction false} DiveToNextLevel(data: SpendingRecord, filters: Filters, k: nat)
    requires k + 1 < |DataLevels| && data.kind == DataLevels[k]
    ensures var r := DiveDeeper(data, filters);
      && r == Fetch(DataLevels[k + 1], r.filters)
      && r.level != RootLevel
      && r.filters.Keys == filters.Keys + {data.kind}
      && r.filters[data.kind] == data.id
      && forall key :: key in filters && key != data.kind ==> r.filters[key] == filters[key]
  {
    IndexOfLevel(k);
    LevelsDistinct();
  }

  /** A record whose type is not a known level yields index -1, so the
      "next" level is the root level. */
  lemma {:induction false} DiveFromUnknownLevel(data: SpendingRecord, filters: Filters)
    requires data.kind !in DataLevels
    ensures DiveDeeper(data, filters) == Fetch(RootLevel, filters[data.kind := data.id])
  {
  }

  /** Drilling into program activity "pa1" under agency "012" asks for
      object classes with both filters. */
  lemma {:induction false} DiveExample()
    ensures DiveDeeper(SpendingRecord("pa1", "program_activity", "Operations", None, 5.0),
                       map["agency" := "012"])
            == Fetch("object_class", map["agency" := "012", "program_activity" := "pa1"])
  {
    IndexOfLevel(2);
  }

  /** The body of the spending request: `{type: level, filters: filters ∪ {fy}}`. */
  datatype Request = Request(kind: string, filters: Filters)

  /** `_loadData`'s request for `level` under `filters`, in fiscal year
      `fiscalYear`. The `fy` entry is added to a fresh copy, and it overrides
      any `fy` the filters already hold. */
  function RequestBody(level: string, filters: Filters, fiscalYear: string): (r: Request)
    ensures r.kind == level
    ensures r.filters.Keys == filters.Keys + {"fy"}
    ensures r.filters["fy"] == fiscalYear
    ensures forall key :: key in filters && key != "fy" ==> r.filters[key] == filters[key]
  {
    Request(level, filters["fy" := fiscalYear])
  }

  /** Which parser the response of a fetch goes to. */
  datatype Route = ParseRoot | ParseDepth

  /** `_loadData`'s continuation: root parsing for the agency level, depth
      parsing for every other level. */
  function RouteFor(level: string): (r: Route)
    ensures r == ParseRoot <==> level == RootLevel
  {
    if level == RootLevel then ParseRoot else ParseDepth
  }

  /** Every fetch a drill issues from a known level is parsed as a depth. */
  lemma {:induction false} DiveRoutesToDepth(data: SpendingRecord, filters: Filters)
    requires data.kind in DataLevels && DiveDeeper(data, filters).Fetch?
    ensures RouteFor(DiveDeeper(data, filters).level) == ParseDepth
  {
    var k := IndexOf(DataLevels, data.kind);
    DiveToNextLevel(data, filters, k);
  }
}
