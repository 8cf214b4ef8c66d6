/** The collecting loop of `Analysis_Specifications.Import`: rows are grouped by owner
    (a client's name, or "lab") and specification title, each group keeping the sample
    type of its first row and the result ranges of all its rows, in row order. */
module Specifications {
  import opened Wrappers
  import opened Worksheet
  import opened Catalog

  /** One result range: the service's keyword and the bounds as the sheet has them. */
  datatype ResultRange = ResultRange(keyword: string, min: string, max: string)

  /** One specification being collected: `{"sampletype": st, "resultsrange": [...]}`. */
  datatype Group = Group(sampleType: string, ranges: seq<ResultRange>)

  /** `bucket[parent][title]`. */
  type Bucket = map<string, map<string, Group>>

  /** What stops the import: a `KeyError` on a column, or the `IndexError` of
      `resolve_service` when no service has the row's title or keyword. */
  datatype SpecError = MissingColumn(column: string) | ServiceNotFound(service: string)

  /** What a titled row contributes. */
  datatype Item = Item(parent: string, title: string, sampleType: string, range: ResultRange)

  /** How the row's service is found (`resolve_service` on its `service` cell) and what
      its keyword is (`service.getKeyword()`). */
  type ServiceResolver = string -> Option<Entity>

  /** `row.get("Title", False)`, falling back to `row.get("title", False)`; `None` when
      neither is truthy and the row is skipped. */
  function TitleOf(row: Record): (t: Option<string>)
    ensures t.Some? ==> t.value != ""
    ensures Truthy(Lookup(row, "Title")) ==> t == Lookup(row, "Title")
    ensures !Truthy(Lookup(row, "Title")) && Truthy(Lookup(row, "title")) ==> t == Lookup(row, "title")
    ensures t.None? <==> !Truthy(Lookup(row, "Title")) && !Truthy(Lookup(row, "title"))
  {
    if Truthy(Lookup(row, "Title")) then Lookup(row, "Title")
    else if Truthy(Lookup(row, "title")) then Lookup(row, "title")
    else None
  }

  /** `row[name] if row[name] else default`. */
  function OrDefault(v: string, default: string): string
  {
    if v != "" then v else default
  }

  /** One row, read in the order the source reads it: the title, `Client_title`,
      `SampleType_title`, `service` (then its resolution), `min` and `max`. */
  function RowItem(row: Record, resolve: ServiceResolver, keywordOf: Entity -> string): Result<Option<Item>, SpecError>
  {
    match TitleOf(row)
    case None => Ok(None)
    case Some(title) =>
      if Lookup(row, "Client_title").None? then Err(MissingColumn("Client_title"))
      else if Lookup(row, "SampleType_title").None? then Err(MissingColumn("SampleType_title"))
      else if Lookup(row, "service").None? then Err(MissingColumn("service"))
      else
        match resolve(Lookup(row, "service").value)
        case None => Err(ServiceNotFound(Lookup(row, "service").value))
        case Some(service) =>
          if Lookup(row, "min").None? then Err(MissingColumn("min"))
          else if Lookup(row, "max").None? then Err(MissingColumn("max"))
          else
            Ok(Some(Item(OrDefault(Lookup(row, "Client_title").value, "lab"),
                         title,
                         OrDefault(Lookup(row, "SampleType_title").value, ""),
                         ResultRange(keywordOf(service),
                                     OrDefault(Lookup(row, "min").value, "0"),
                                     OrDefault(Lookup(row, "max").value, "0")))))
  }

  function GroupOf(bucket: Bucket, parent: string, title: string): Option<Group>
  {
    if parent in bucket && title in bucket[parent] then Some(bucket[parent][title]) else None
  }

  function RangesOf(bucket: Bucket, parent: string, title: string): seq<ResultRange>
  {
    match GroupOf(bucket, parent, title)
    case Some(g) => g.ranges
    case None => []
  }

  /** The group is created with the item's sample type if it is new; the range is
      appended in any case. */
  function AddItem(bucket: Bucket, it: Item): (r: Bucket)
    ensures forall p, t :: (p, t) != (it.parent, it.title) ==> GroupOf(r, p, t) == GroupOf(bucket, p, t)
    ensures GroupOf(r, it.parent, it.title).Some?
    ensures RangesOf(r, it.parent, it.title) == RangesOf(bucket, it.parent, it.title) + [it.range]
    ensures GroupOf(r, it.parent, it.title).value.sampleType
         == if GroupOf(bucket, it.parent, it.title).Some? then GroupOf(bucket, it.parent, it.title).value.sampleType
            else it.sampleType
  {
    var groups := if it.parent in bucket then bucket[it.parent] else map[];
    var g := if it.title in groups then groups[it.title] else Group(it.sampleType, []);
    bucket[it.parent := groups[it.title := g.(ranges := g.ranges + [it.range])]]
  }

  /** The bucket after the rows; any error ends the import before anything is created. */
  function Collect(bucket: Bucket, rows: seq<Record>, resolve: ServiceResolver, keywordOf: Entity -> string)
    : Result<Bucket, SpecError>
    decreases |rows|
  {
    if rows == [] then Ok(bucket)
    else
      match RowItem(rows[0], resolve, keywordOf)
      case Err(e) => Err(e)
      case Ok(None) => Collect(bucket, rows[1..], resolve, keywordOf)
      case Ok(Some(it)) => Collect(AddItem(bucket, it), rows[1..], resolve, keywordOf)
  }

  /** The service lookup of `Analysis_Specifications.resolve_service`. */
  function ServiceByName(catalog: Catalog): ServiceResolver
  {
    name => ResolveService(catalog, name)
  }

  /** The loop of `Analysis_Specifications.Import` that fills the bucket from the rows
      `get_rows(3)` yields. */
  method CollectSpecifications(catalog: Catalog, keywordOf: Entity -> string, rows: seq<Record>)
    returns (r: Result<Bucket, SpecError>)
    ensures r == Collect(map[], rows, ServiceByName(catalog), keywordOf)
  {
    var bucket: Bucket := map[];
    for i := 0 to |rows|
      invariant Collect(map[], rows, ServiceByName(catalog), keywordOf)
             == Collect(bucket, rows[i..], ServiceByName(catalog), keywordOf)
    {
      assert rows[i..][1..] == rows[i + 1..];
      var item := RowItem(rows[i], ServiceByName(catalog), keywordOf);
      if item.Err? {
        return Err(item.error);
      }
      if item.value.Some? {
        bucket := AddItem(bucket, item.value.value);
      }
    }
    return Ok(bucket);
  }

  // ---------------------------------------------------------------- properties

  /** A row without a title is skipped before any other column is read, so it never
      raises; a titled row either raises or contributes, under its title, with a
      non-empty owner and bounds that default to "0". */
  lemma RowItemSpec(row: Record, resolve: ServiceResolver, keywordOf: Entity -> string)
    ensures TitleOf(row).None? <==> RowItem(row, resolve, keywordOf) == Ok(None)
    ensures RowItem(row, resolve, keywordOf).Ok? && RowItem(row, resolve, keywordOf).value.Some? ==>
      var it := RowItem(row, resolve, keywordOf).value.value;
      && Some(it.title) == TitleOf(row)
      && it.parent != ""
      && (Lookup(row, "Client_title") == Some("") ==> it.parent == "lab")
      && it.range.min != "" && it.range.max != ""
  {
  }

  /** The service is looked up by its title first and by its keyword only when no
      service has that title. */
  lemma RowItemService(row: Record, catalog: Catalog, keywordOf: Entity -> string)
    requires RowItem(row, ServiceByName(catalog), keywordOf).Ok?
    requires RowItem(row, ServiceByName(catalog), keywordOf).value.Some?
    ensures var name := Lookup(row, "service").value;
      var byTitle := catalog(map["portal_type" := Some(AnalysisService), "title" := Some(name)]);
      var byKeyword := catalog(map["portal_type" := Some(AnalysisService), "getKeyword" := Some(name)]);
      && ResolveService(catalog, name).Some?
      && RowItem(row, ServiceByName(catalog), keywordOf).value.value.range.keyword
           == keywordOf(if byTitle != [] then byTitle[0] else byKeyword[0])
  {
  }

  /** The items of a run of rows for one group, in row order. */
  function ItemsFor(rows: seq<Record>, resolve: ServiceResolver, keywordOf: Entity -> string, parent: string, title: string)
    : seq<Item>
    decreases |rows|
  {
    if rows == [] then []
    else
      var r := RowItem(rows[0], resolve, keywordOf);
      (if r.Ok? && r.value.Some? && r.value.value.parent == parent && r.value.value.title == title
       then [r.value.value] else [])
        + ItemsFor(rows[1..], resolve, keywordOf, parent, title)
  }

  function RangesOfItems(items: seq<Item>): seq<ResultRange>
  {
    seq(|items|, i requires 0 <= i < |items| => items[i].range)
  }

  lemma ItemRangesAppend(a: seq<Item>, b: seq<Item>)
    ensures RangesOfItems(a + b) == RangesOfItems(a) + RangesOfItems(b)
  {
  }

  lemma RangesAssoc(a: seq<ResultRange>, b: seq<ResultRange>, c: seq<ResultRange>)
    ensures a + (b + c) == (a + b) + c
  {
  }

  /** A run that ends without error gives every group exactly the ranges of its rows,
      appended in row order. */
  lemma {:induction false} CollectRanges(bucket: Bucket, rows: seq<Record>, resolve: ServiceResolver,
                                         keywordOf: Entity -> string, parent: string, title: string)
    ensures var r := Collect(bucket, rows, resolve, keywordOf);
      r.Ok? ==>
        RangesOf(r.value, parent, title)
          == RangesOf(bucket, parent, title) + RangesOfItems(ItemsFor(rows, resolve, keywordOf, parent, title))
    decreases |rows|
  {
    if rows == [] {
      assert RangesOf(bucket, parent, title) + [] == RangesOf(bucket, parent, title);
    } else {
      var step := RowItem(rows[0], resolve, keywordOf);
      if step.Ok? {
        var next := if step.value.Some? then AddItem(bucket, step.value.value) else bucket;
        CollectRanges(next, rows[1..], resolve, keywordOf, parent, title);
        var mine := if step.value.Some? && step.value.value.parent == parent && step.value.value.title == title
                    then [step.value.value] else [];
        var rest := ItemsFor(rows[1..], resolve, keywordOf, parent, title);
        assert RangesOf(next, parent, title) == RangesOf(bucket, parent, title) + RangesOfItems(mine);
        ItemRangesAppend(mine, rest);
        RangesAssoc(RangesOf(bucket, parent, title), RangesOfItems(mine), RangesOfItems(rest));
      }
    }
  }

  /** A run that ends without error has a group exactly for the groups it started with
      and those some row names; a new group takes the sample type of its first row, and
      a group that existed keeps its own. */
  lemma {:induction false} CollectSampleType(bucket: Bucket, rows: seq<Record>, resolve: ServiceResolver,
                                             keywordOf: Entity -> string, parent: string, title: string)
    ensures var r := Collect(bucket, rows, resolve, keywordOf);
      var items := ItemsFor(rows, resolve, keywordOf, parent, title);
      r.Ok? ==>
        && (GroupOf(r.value, parent, title).Some? <==> GroupOf(bucket, parent, title).Some? || items != [])
        && (GroupOf(bucket, parent, title).Some? ==>
              GroupOf(r.value, parent, title).value.sampleType == GroupOf(bucket, parent, title).value.sampleType)
        && (GroupOf(bucket, parent, title).None? && items != [] ==>
              GroupOf(r.value, parent, title).value.sampleType == items[0].sampleType)
    decreases |rows|
  {
    if rows != [] {
      var step := RowItem(rows[0], resolve, keywordOf);
      if step.Ok? {
        var next := if step.value.Some? then AddItem(bucket, step.value.value) else bucket;
        CollectSampleType(next, rows[1..], resolve, keywordOf, parent, title);
      }
    }
  }

  /** An error in any row means no bucket at all: the rows before it are not written
      either. */
  lemma {:induction false} CollectErrIff(bucket: Bucket, rows: seq<Record>, resolve: ServiceResolver,
                                         keywordOf: Entity -> string)
    ensures Collect(bucket, rows, resolve, keywordOf).Err? <==>
      exists k :: 0 <= k < |rows| && RowItem(rows[k], resolve, keywordOf).Err?
    decreases |rows|
  {
    if rows != [] {
      CollectErrIff(if RowItem(rows[0], resolve, keywordOf).Ok? && RowItem(rows[0], resolve, keywordOf).value.Some?
                    then AddItem(bucket, RowItem(rows[0], resolve, keywordOf).value.value) else bucket,
                    rows[1..], resolve, keywordOf);
      if exists k :: 0 <= k < |rows| && RowItem(rows[k], resolve, keywordOf).Err? {
        var k :| 0 <= k < |rows| && RowItem(rows[k], resolve, keywordOf).Err?;
        if k > 0 {
          assert rows[1..][k - 1] == rows[k];
        }
      }
      if exists k :: 0 <= k < |rows[1..]| && RowItem(rows[1..][k], resolve, keywordOf).Err? {
        var k :| 0 <= k < |rows[1..]| && RowItem(rows[1..][k], resolve, keywordOf).Err?;
        assert rows[k + 1] == rows[1..][k];
      }
    }
  }
}
