/** `Worksheet_Templates.load_wst_layouts`: the rows of the "Worksheet Template Layouts"
    sheet become layout entries, collected per worksheet-template title. */
module TemplateLayouts {
  import opened Wrappers
  import opened Text
  import opened Worksheet

  /** What the loader may raise: the lookup of the sheet, or a row before its entry is
      appended. */
  datatype LayoutError =
    | NoLayoutSheet    // `workbook[sheetname]` on a workbook without the sheet
    | DupNotInteger    // `int(dup)` on a non-empty `dup` cell that is no integer
    | PosMissing       // `row["pos"]` on a sheet without a `pos` column
    | PosNotInteger    // `int(row["pos"])`
    | TypeEmpty        // `analysis_type[0]` on an empty `type` cell

  /** One slot of a template layout. `blankRef` and `controlRef` are the one-element or
      empty lists the source builds (a Python list may hold `None`); `dup` is stored both
      as `dup` and as `dup_proxy`. */
  datatype LayoutEntry = LayoutEntry(
    pos: int,
    kind: char,
    blankRef: seq<Option<string>>,
    controlRef: seq<Option<string>>,
    referenceProxy: Option<string>,
    dup: Option<int>)

  /** The layouts collected so far, by `WorksheetTemplate_title` (which may be `None`). */
  type Layouts = map<Option<string>, seq<LayoutEntry>>

  function EntriesOf(layouts: Layouts, title: Option<string>): seq<LayoutEntry>
  {
    if title in layouts then layouts[title] else []
  }

  /** `row.get(name, default)`. */
  function GetOr(row: Record, name: string, default: string): string
  {
    match Lookup(row, name)
    case Some(v) => v
    case None => default
  }

  /** `row.get("type", "a")`. */
  function TypeOf(row: Record): string
  {
    GetOr(row, "type", "a")
  }

  predicate IsBlank(t: string) { t == "b" || t == "Blank" }

  predicate IsControl(t: string) { t == "c" || t == "Control" }

  predicate IsDuplicate(t: string) { t == "d" || t == "Duplicate" }

  /** A reference cell: a UID as it is, otherwise the UID of the active reference
      definition with that title (`load_definitions`), otherwise `None`. */
  function ResolveRef(ref: string, isUid: string -> bool, definitions: map<string, string>): (r: Option<string>)
    ensures isUid(ref) ==> r == Some(ref)
    ensures !isUid(ref) && ref in definitions ==> r == Some(definitions[ref])
    ensures !isUid(ref) && ref !in definitions ==> r == None
  {
    if isUid(ref) then Some(ref)
    else if ref in definitions then Some(definitions[ref])
    else None
  }

  /** The `blank_uid`, `control_uid` and `ref_proxy` of a row. */
  datatype Refs = Refs(blankUid: Option<string>, controlUid: Option<string>, proxy: Option<string>)

  /** `x or None`. */
  function OrNone(x: Option<string>): Option<string>
  {
    if Truthy(x) then x else None
  }

  function RefsOf(row: Record, isUid: string -> bool, definitions: map<string, string>): (refs: Refs)
    ensures IsBlank(TypeOf(row)) ==> refs.blankUid == ResolveRef(GetOr(row, "blank_ref", ""), isUid, definitions)
    ensures IsControl(TypeOf(row)) ==> refs.controlUid == ResolveRef(GetOr(row, "control_ref", ""), isUid, definitions)
    ensures !IsBlank(TypeOf(row)) ==> refs.blankUid == None
    ensures !IsControl(TypeOf(row)) ==> refs.controlUid == None
    ensures refs.proxy == OrNone(if IsBlank(TypeOf(row)) then refs.blankUid else refs.controlUid)
  {
    var t := TypeOf(row);
    if IsBlank(t) then
      var u := ResolveRef(GetOr(row, "blank_ref", ""), isUid, definitions);
      Refs(u, None, OrNone(u))
    else if IsControl(t) then
      var u := ResolveRef(GetOr(row, "control_ref", ""), isUid, definitions);
      Refs(None, u, OrNone(u))
    else Refs(None, None, None)
  }

  /** `dup = int(dup) if dup else None`, which runs for every row, whatever its type. */
  function DupOf(row: Record): Result<Option<int>, LayoutError>
  {
    var d := Lookup(row, "dup");
    if !Truthy(d) then Ok(None)
    else
      match ParseInt(d.value)
      case None => Err(DupNotInteger)
      case Some(n) => Ok(Some(n))
  }

  /** `[x] if guard else []`. */
  function ListIf(guard: bool, x: Option<string>): seq<Option<string>>
  {
    if guard then [x] else []
  }

  /** The entry of one row. With `asWritten` the control reference list is guarded by
      the blank UID, as the source has it; without, by the control UID. The errors come
      in the order the source meets them: `dup`, then `pos`, then `type`. */
  function EntryWith(row: Record, isUid: string -> bool, definitions: map<string, string>, asWritten: bool)
    : Result<LayoutEntry, LayoutError>
  {
    match DupOf(row)
    case Err(e) => Err(e)
    case Ok(dup) =>
      var t := TypeOf(row);
      var refs := RefsOf(row, isUid, definitions);
      if Lookup(row, "pos").None? then Err(PosMissing)
      else if ParseInt(Lookup(row, "pos").value).None? then Err(PosNotInteger)
      else if t == "" then Err(TypeEmpty)
      else
        Ok(LayoutEntry(
          ParseInt(Lookup(row, "pos").value).value,
          LowerChar(t[0]),
          ListIf(Truthy(refs.blankUid), refs.blankUid),
          ListIf(Truthy(if asWritten then refs.blankUid else refs.controlUid), refs.controlUid),
          refs.proxy,
          if IsDuplicate(t) then dup else None))
  }

  /** The entry exactly as the source builds it. */
  function EntryAsWritten(row: Record, isUid: string -> bool, definitions: map<string, string>)
    : Result<LayoutEntry, LayoutError>
  {
    EntryWith(row, isUid, definitions, true)
  }

  /** The entry with the control reference list guarded by the control UID. */
  function Entry(row: Record, isUid: string -> bool, definitions: map<string, string>)
    : Result<LayoutEntry, LayoutError>
  {
    EntryWith(row, isUid, definitions, false)
  }

  /** How the loader turns a row into an entry: `EntryWith` under the given UID test,
      reference definitions and control-list guard. */
  type EntryOf = Record -> Result<LayoutEntry, LayoutError>

  function EntryFn(isUid: string -> bool, definitions: map<string, string>, asWritten: bool): EntryOf
  {
    row => EntryWith(row, isUid, definitions, asWritten)
  }

  /** The outcome of loading: the layouts, and the error that stopped the loop, if any. */
  datatype Outcome = Outcome(layouts: Layouts, error: Option<LayoutError>)

  /** One row: the template's list is created first, so it exists even when the row
      then fails; otherwise the row's entry is appended to it. */
  function AddRow(layouts: Layouts, row: Record, entryOf: EntryOf): Outcome
  {
    var title := Lookup(row, "WorksheetTemplate_title");
    var created := if title in layouts then layouts else layouts[title := []];
    match entryOf(row)
    case Err(e) => Outcome(created, Some(e))
    case Ok(entry) => Outcome(created[title := created[title] + [entry]], None)
  }

  function LoadRows(layouts: Layouts, rows: seq<Record>, entryOf: EntryOf): Outcome
    decreases |rows|
  {
    if rows == [] then Outcome(layouts, None)
    else
      var step := AddRow(layouts, rows[0], entryOf);
      if step.error.Some? then step
      else LoadRows(step.layouts, rows[1..], entryOf)
  }

  /** The part of the `Worksheet_Templates` importer that `load_wst_layouts` fills. */
  class WorksheetTemplates {
    var wstLayouts: Layouts

    constructor ()
      ensures wstLayouts == map[]
    {
      wstLayouts := map[];
    }

    /** `load_wst_layouts`: a missing sheet raises before anything changes; otherwise one
        entry per data row, built as the source builds it (`EntryAsWritten`) and appended
        to the list of the row's template title. `isUid` is `api.is_uid` and `definitions`
        what `load_definitions` returns. */
    method LoadWstLayouts(sheet: Option<Sheet>, isUid: string -> bool, definitions: map<string, string>)
      returns (error: Option<LayoutError>)
      modifies this
      ensures sheet.None? ==> wstLayouts == old(wstLayouts) && error == Some(NoLayoutSheet)
      ensures sheet.Some? ==>
        LoadRows(old(wstLayouts), Yielded(sheet.value, DefaultStartRow), EntryFn(isUid, definitions, true))
          == Outcome(wstLayouts, error)
    {
      if sheet.None? {
        return Some(NoLayoutSheet);
      }
      var rows;
      ghost var savepoints;
      rows, savepoints := GetRows(sheet.value, DefaultStartRow);
      for i := 0 to |rows|
        invariant LoadRows(old(wstLayouts), rows, EntryFn(isUid, definitions, true))
               == LoadRows(wstLayouts, rows[i..], EntryFn(isUid, definitions, true))
      {
        assert rows[i..][1..] == rows[i + 1..];
        var row := rows[i];
        var title := Lookup(row, "WorksheetTemplate_title");
        if title !in wstLayouts {
          wstLayouts := wstLayouts[title := []];
        }
        var entry := EntryFn(isUid, definitions, true)(row);
        if entry.Err? {
          return Some(entry.error);
        }
        wstLayouts := wstLayouts[title := wstLayouts[title] + [entry.value]];
      }
      return None;
    }
  }

  // ---------------------------------------------------------------- properties

  /** What a well-formed row turns into: the first letter of its type in lower case; a
      blank reference only for a blank row and a control reference only for a control
      row, each exactly when its reference resolves to a non-empty UID, which is then
      also the reference proxy; in every row the proxy is the resolved UID of its
      reference, `None` when there is none; `int(dup)` for a duplicate row and no `dup`
      for any other row. */
  lemma EntrySpec(row: Record, isUid: string -> bool, definitions: map<string, string>)
    requires Entry(row, isUid, definitions).Ok?
    ensures var e := Entry(row, isUid, definitions).value;
      var t := TypeOf(row);
      var refs := RefsOf(row, isUid, definitions);
      && t != ""
      && e.kind == LowerChar(t[0])
      && ParseInt(GetOr(row, "pos", "")) == Some(e.pos)
      && (e.blankRef != [] <==> IsBlank(t) && Truthy(refs.blankUid))
      && (e.controlRef != [] <==> IsControl(t) && Truthy(refs.controlUid))
      && (e.blankRef != [] ==> e.blankRef == [e.referenceProxy] && e.controlRef == [])
      && (e.controlRef != [] ==> e.controlRef == [e.referenceProxy] && e.blankRef == [])
      && (e.dup.Some? ==> IsDuplicate(t))
      && DupOf(row).Ok?
      && (IsDuplicate(t) ==> e.dup == DupOf(row).value)
      && e.referenceProxy == refs.proxy
  {
  }

  /** A row fails exactly on a non-integer `dup`, a missing or non-integer `pos` or an
      empty `type`; the `dup` check runs even for rows that are not duplicates. */
  lemma EntryErrIff(row: Record, isUid: string -> bool, definitions: map<string, string>)
    ensures Entry(row, isUid, definitions).Err? <==>
      || (Truthy(Lookup(row, "dup")) && ParseInt(Lookup(row, "dup").value).None?)
      || Lookup(row, "pos").None?
      || ParseInt(Lookup(row, "pos").value).None?
      || TypeOf(row) == ""
  {
  }

  /** As written, a control row never keeps its control reference, and a blank row with
      a resolved blank reference gets a control reference list holding `None`. */
  lemma AsWrittenControlRef(row: Record, isUid: string -> bool, definitions: map<string, string>)
    requires EntryAsWritten(row, isUid, definitions).Ok?
    ensures IsControl(TypeOf(row)) ==> EntryAsWritten(row, isUid, definitions).value.controlRef == []
    ensures IsBlank(TypeOf(row)) && Truthy(RefsOf(row, isUid, definitions).blankUid) ==>
      EntryAsWritten(row, isUid, definitions).value.controlRef == [None]
  {
  }

  /** A control row whose control reference resolves loses it as written, and keeps it
      once the list is guarded by the control UID. */
  lemma ControlRowLosesReference(row: Record, isUid: string -> bool, definitions: map<string, string>)
    requires IsControl(TypeOf(row))
    requires Truthy(RefsOf(row, isUid, definitions).controlUid)
    requires Entry(row, isUid, definitions).Ok?
    ensures EntryAsWritten(row, isUid, definitions).Ok?
    ensures EntryAsWritten(row, isUid, definitions).value.controlRef == []
    ensures Entry(row, isUid, definitions).value.controlRef == [RefsOf(row, isUid, definitions).controlUid]
  {
  }

  /** A concrete row showing it: the control row `pos = 0`, `type = c`, whose control
      reference `u` is a UID. */
  lemma AsWrittenDropsControl()
    ensures var row := Record(map[Some("pos") := IntToString(0), Some("type") := "c", Some("control_ref") := "u"], map[]);
      && EntryAsWritten(row, s => true, map[]).Ok?
      && EntryAsWritten(row, s => true, map[]).value.controlRef == []
      && Entry(row, s => true, map[]).Ok?
      && Entry(row, s => true, map[]).value.controlRef == [Some("u")]
  {
    var row := Record(map[Some("pos") := IntToString(0), Some("type") := "c", Some("control_ref") := "u"], map[]);
    var isUid: string -> bool := s => true;
    assert Lookup(row, "dup") == None;
    assert DupOf(row) == Ok(None);
    assert Lookup(row, "pos") == Some(IntToString(0));
    ParseIntRoundTrip(0);
    assert TypeOf(row) == "c";
    assert GetOr(row, "control_ref", "") == "u";
    assert RefsOf(row, isUid, map[]).controlUid == Some("u");
    ControlRowLosesReference(row, isUid, map[]);
  }

  /** The two differ only in the control reference list. */
  lemma EntryDiffersOnlyInControlRef(row: Record, isUid: string -> bool, definitions: map<string, string>)
    ensures Entry(row, isUid, definitions).Ok? == EntryAsWritten(row, isUid, definitions).Ok?
    ensures Entry(row, isUid, definitions).Ok? ==>
      Entry(row, isUid, definitions).value
        == EntryAsWritten(row, isUid, definitions).value.(controlRef := Entry(row, isUid, definitions).value.controlRef)
  {
  }

  /** The entries a run of rows appends to the template `title`, in row order. */
  function EntriesFor(rows: seq<Record>, title: Option<string>, entryOf: EntryOf): seq<LayoutEntry>
    decreases |rows|
  {
    if rows == [] then []
    else
      (if Lookup(rows[0], "WorksheetTemplate_title") == title && entryOf(rows[0]).Ok? then [entryOf(rows[0]).value] else [])
        + EntriesFor(rows[1..], title, entryOf)
  }

  /** Some row of the run names the template `title`. */
  predicate Mentions(rows: seq<Record>, title: Option<string>)
  {
    exists k :: 0 <= k < |rows| && Lookup(rows[k], "WorksheetTemplate_title") == title
  }

  lemma MentionsCons(rows: seq<Record>, title: Option<string>)
    requires rows != []
    ensures Mentions(rows, title) <==>
      Lookup(rows[0], "WorksheetTemplate_title") == title || Mentions(rows[1..], title)
  {
    if Mentions(rows, title) {
      var k :| 0 <= k < |rows| && Lookup(rows[k], "WorksheetTemplate_title") == title;
      if k > 0 {
        assert rows[1..][k - 1] == rows[k];
      }
    }
    if Mentions(rows[1..], title) {
      var k :| 0 <= k < |rows[1..]| && Lookup(rows[1..][k], "WorksheetTemplate_title") == title;
      assert rows[k + 1] == rows[1..][k];
    }
  }

  lemma AppendAssoc(a: seq<LayoutEntry>, b: seq<LayoutEntry>, c: seq<LayoutEntry>)
    ensures a + (b + c) == (a + b) + c
  {
  }

  /** A load that ran to the end appends to every template's list exactly the entries of
      its own rows, in row order, and creates a list for every title it met. */
  lemma {:induction false} LoadRowsLists(layouts: Layouts, rows: seq<Record>, entryOf: EntryOf, title: Option<string>)
    ensures LoadRows(layouts, rows, entryOf).error.None? ==>
      && EntriesOf(LoadRows(layouts, rows, entryOf).layouts, title)
           == EntriesOf(layouts, title) + EntriesFor(rows, title, entryOf)
      && (title in LoadRows(layouts, rows, entryOf).layouts <==> title in layouts || Mentions(rows, title))
    decreases |rows|
  {
    if rows == [] {
      assert EntriesOf(layouts, title) + [] == EntriesOf(layouts, title);
    } else {
      var step := AddRow(layouts, rows[0], entryOf);
      if step.error.None? {
        LoadRowsLists(step.layouts, rows[1..], entryOf, title);
        MentionsCons(rows, title);
        var mine := if Lookup(rows[0], "WorksheetTemplate_title") == title then [entryOf(rows[0]).value] else [];
        assert EntriesOf(step.layouts, title) == EntriesOf(layouts, title) + mine;
        AppendAssoc(EntriesOf(layouts, title), mine, EntriesFor(rows[1..], title, entryOf));
      }
    }
  }

  /** Loading only appends: every template's old list is a prefix of its new one, even
      when a row fails. */
  lemma {:induction false} LoadRowsExtends(layouts: Layouts, rows: seq<Record>, entryOf: EntryOf, title: Option<string>)
    ensures EntriesOf(layouts, title) <= EntriesOf(LoadRows(layouts, rows, entryOf).layouts, title)
    ensures title in layouts ==> title in LoadRows(layouts, rows, entryOf).layouts
    decreases |rows|
  {
    if rows != [] {
      var step := AddRow(layouts, rows[0], entryOf);
      if step.error.None? {
        LoadRowsExtends(step.layouts, rows[1..], entryOf, title);
      }
    }
  }

  /** Two runs of entries that agree in everything but the control reference lists. */
  predicate SameButControl(a: seq<LayoutEntry>, b: seq<LayoutEntry>)
  {
    |a| == |b| && forall i :: 0 <= i < |a| ==> a[i] == b[i].(controlRef := a[i].controlRef)
  }

  /** Both runs start with `prefix` and agree after it up to the control reference lists. */
  predicate SameAfter(prefix: seq<LayoutEntry>, a: seq<LayoutEntry>, b: seq<LayoutEntry>)
  {
    && prefix <= a && prefix <= b
    && SameButControl(a[|prefix|..], b[|prefix|..])
  }

  /** The rows give the same entries to every template under either guard, up to the
      control reference lists. */
  lemma {:induction false} EntriesForButControl(rows: seq<Record>, title: Option<string>,
                                                isUid: string -> bool, definitions: map<string, string>)
    ensures SameButControl(EntriesFor(rows, title, EntryFn(isUid, definitions, true)),
                           EntriesFor(rows, title, EntryFn(isUid, definitions, false)))
    decreases |rows|
  {
    if rows != [] {
      EntriesForButControl(rows[1..], title, isUid, definitions);
      EntryDiffersOnlyInControlRef(rows[0], isUid, definitions);
    }
  }

  /** Under either guard a load stops at the same row with the same error and meets the
      same titles. */
  lemma {:induction false} LoadsStopAlike(a: Layouts, b: Layouts, rows: seq<Record>,
                                          isUid: string -> bool, definitions: map<string, string>)
    requires a.Keys == b.Keys
    ensures LoadRows(a, rows, EntryFn(isUid, definitions, true)).error
         == LoadRows(b, rows, EntryFn(isUid, definitions, false)).error
    ensures LoadRows(a, rows, EntryFn(isUid, definitions, true)).layouts.Keys
         == LoadRows(b, rows, EntryFn(isUid, definitions, false)).layouts.Keys
    decreases |rows|
  {
    if rows != [] {
      EntryDiffersOnlyInControlRef(rows[0], isUid, definitions);
      var sa := AddRow(a, rows[0], EntryFn(isUid, definitions, true));
      var sb := AddRow(b, rows[0], EntryFn(isUid, definitions, false));
      assert sa.error == sb.error && sa.layouts.Keys == sb.layouts.Keys;
      if sa.error.None? {
        LoadsStopAlike(sa.layouts, sb.layouts, rows[1..], isUid, definitions);
      }
    }
  }

  /** What the `control_ref` correction changes in `load_wst_layouts`: nothing but the
      control reference lists. Both loads stop with the same error and meet the same
      titles, and a load that runs to the end gives every template the same entries
      under either guard, up to their control reference lists. */
  lemma LoadFixOnlyChangesControlRefs(layouts: Layouts, rows: seq<Record>, isUid: string -> bool,
                                      definitions: map<string, string>, title: Option<string>)
    ensures LoadRows(layouts, rows, EntryFn(isUid, definitions, true)).error
         == LoadRows(layouts, rows, EntryFn(isUid, definitions, false)).error
    ensures LoadRows(layouts, rows, EntryFn(isUid, definitions, true)).layouts.Keys
         == LoadRows(layouts, rows, EntryFn(isUid, definitions, false)).layouts.Keys
    ensures LoadRows(layouts, rows, EntryFn(isUid, definitions, true)).error.None? ==>
      SameAfter(EntriesOf(layouts, title),
                EntriesOf(LoadRows(layouts, rows, EntryFn(isUid, definitions, true)).layouts, title),
                EntriesOf(LoadRows(layouts, rows, EntryFn(isUid, definitions, false)).layouts, title))
  {
    var fw := EntryFn(isUid, definitions, true);
    var fc := EntryFn(isUid, definitions, false);
    var w := LoadRows(layouts, rows, fw);
    var c := LoadRows(layouts, rows, fc);
    LoadsStopAlike(layouts, layouts, rows, isUid, definitions);
    if w.error.None? {
      var old0 := EntriesOf(layouts, title);
      var ew := EntriesFor(rows, title, fw);
      var ec := EntriesFor(rows, title, fc);
      LoadRowsLists(layouts, rows, fw, title);
      LoadRowsLists(layouts, rows, fc, title);
      assert EntriesOf(w.layouts, title) == old0 + ew;
      assert EntriesOf(c.layouts, title) == old0 + ec;
      EntriesForButControl(rows, title, isUid, definitions);
      assert (old0 + ew)[|old0|..] == ew;
      assert (old0 + ec)[|old0|..] == ec;
    }
  }


  /** A row that fails still leaves its template with a list, unchanged if it had one. */
  lemma AddRowCreatesTitle(layouts: Layouts, row: Record, entryOf: EntryOf)
    ensures Lookup(row, "WorksheetTemplate_title") in AddRow(layouts, row, entryOf).layouts
    ensures AddRow(layouts, row, entryOf).error.Some? ==>
      EntriesOf(AddRow(layouts, row, entryOf).layouts, Lookup(row, "WorksheetTemplate_title"))
        == EntriesOf(layouts, Lookup(row, "WorksheetTemplate_title"))
  {
  }
}
