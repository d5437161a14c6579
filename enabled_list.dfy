/** Enabled-list documents (Functional.py): `export_enabled_list` builds one from
    the mod table, `import_enabled_list` reads one back into a dict keyed by the
    UUID integer. Both keep Python's dict insertion order. The blacklist file
    has the same shape. */
module EnabledList {
  import opened Common
  import opened Registry

  /** A Python dict keyed by mod id; `keys` is its insertion order. */
  datatype Dict<V> = Dict(keys: seq<nat>, values: map<nat, V>)

  ghost predicate WellFormed<V>(d: Dict<V>) {
    && NoDups(d.keys)
    && (forall k :: k in d.values <==> k in d.keys)
  }

  /** `d[k] = v`: a new key goes to the end, an existing key keeps its place. */
  function Put<V>(d: Dict<V>, k: nat, v: V): (r: Dict<V>)
    ensures WellFormed(d) ==> WellFormed(r)
    ensures r.values == d.values[k := v]
    ensures k in d.values ==> r.keys == d.keys
    ensures k !in d.values ==> r.keys == d.keys + [k]
  {
    if k in d.values then Dict(d.keys, d.values[k := v]) else Dict(d.keys + [k], d.values[k := v])
  }

  /** One record of an enabled-list document: the shape the export writes. */
  datatype ListEntry = ListEntry(displayName: string, enabled: bool, id: string, steamId: int)

  /** One record of such a document as parsed from JSON; `None` is an absent key. */
  datatype RawListRecord = RawListRecord(
    id: Option<string>, displayName: Option<string>, enabled: Option<bool>, steamId: Option<int>)

  /** One iteration of the parse loop of `import_enabled_list` (Functional.py:192-202). */
  function ImportRecord(c: UuidCodec, d: Dict<ListEntry>, r: RawListRecord): (res: Result<Dict<ListEntry>, Crash>)
    ensures res.Success? <==> ListRecordComplete(c, r)
  {
    if r.id.None? then Failure(MissingKey("id"))
    else if c.parse(r.id.value).None? then Failure(MalformedId(r.id.value))
    else if r.displayName.None? then Failure(MissingKey("displayName"))
    else if r.enabled.None? then Failure(MissingKey("enabled"))
    else if r.steamId.None? then Failure(MissingKey("steamId"))
    else
      Success(Put(d, c.parse(r.id.value).value,
        ListEntry(r.displayName.value, r.enabled.value, r.id.value, r.steamId.value)))
  }

  /** The parse loop over the document's records in order; its exceptions are
      not caught. */
  function ImportRecords(c: UuidCodec, recs: seq<RawListRecord>): (r: Result<Dict<ListEntry>, Crash>)
    ensures r.Success? ==> WellFormed(r.value)
  {
    if recs == [] then Success(Dict([], map[]))
    else
      match ImportRecords(c, recs[..|recs| - 1])
      case Failure(e) => Failure(e)
      case Success(d) => ImportRecord(c, d, recs[|recs| - 1])
  }

  /** A record the parse loop accepts: every key it reads is present and the id parses. */
  predicate ListRecordComplete(c: UuidCodec, r: RawListRecord) {
    r.id.Some? && c.parse(r.id.value).Some? && r.displayName.Some? && r.enabled.Some? && r.steamId.Some?
  }

  /** The integer id of every record, in document order. */
  function ParsedIds(c: UuidCodec, recs: seq<RawListRecord>): seq<nat>
    requires forall i :: 0 <= i < |recs| ==> ListRecordComplete(c, recs[i])
  {
    if recs == [] then []
    else
      var rec := recs[|recs| - 1];
      assert ListRecordComplete(c, rec);
      ParsedIds(c, recs[..|recs| - 1]) + [c.parse(rec.id.value).value]
  }

  /** The value the loop stores for a complete record. */
  function EntryOf(r: RawListRecord): ListEntry
    requires r.displayName.Some? && r.enabled.Some? && r.id.Some? && r.steamId.Some?
  {
    ListEntry(r.displayName.value, r.enabled.value, r.id.value, r.steamId.value)
  }

  /** The value of the last record whose id parses to `k`. */
  function LastEntry(c: UuidCodec, recs: seq<RawListRecord>, k: nat): Option<ListEntry>
    requires forall i :: 0 <= i < |recs| ==> ListRecordComplete(c, recs[i])
  {
    if recs == [] then None
    else
      var rec := recs[|recs| - 1];
      assert ListRecordComplete(c, rec);
      if c.parse(rec.id.value) == Some(k) then Some(EntryOf(rec))
      else LastEntry(c, recs[..|recs| - 1], k)
  }

  /** The parse loop succeeds exactly when every record is complete. */
  lemma {:induction false} ImportRecordsSucceeds(c: UuidCodec, recs: seq<RawListRecord>)
    ensures ImportRecords(c, recs).Success? <==> forall i :: 0 <= i < |recs| ==> ListRecordComplete(c, recs[i])
  {
    if recs != [] {
      var front := recs[..|recs| - 1];
      assert forall i :: 0 <= i < |front| ==> front[i] == recs[i];
      ImportRecordsSucceeds(c, front);
    }
  }

  /** The parse loop over a complete document, one record at a time. */
  lemma ImportRecordsStep(c: UuidCodec, recs: seq<RawListRecord>)
    requires recs != [] && forall i :: 0 <= i < |recs| ==> ListRecordComplete(c, recs[i])
    ensures var front := recs[..|recs| - 1];
      var rec := recs[|recs| - 1];
      && (forall i :: 0 <= i < |front| ==> ListRecordComplete(c, front[i]))
      && ListRecordComplete(c, rec)
      && ImportRecords(c, front).Success?
      && ImportRecords(c, recs) == Success(Put(ImportRecords(c, front).value, c.parse(rec.id.value).value, EntryOf(rec)))
  {
    var front := recs[..|recs| - 1];
    assert forall i :: 0 <= i < |front| ==> front[i] == recs[i];
    ImportRecordsSucceeds(c, front);
  }

  /** On a complete document the dict holds the parsed ids once each, in the
      order of their first occurrence (a repeated id keeps its place), and each
      id carries the value of the last record with that id. */
  lemma {:induction false} ImportRecordsCorrect(c: UuidCodec, recs: seq<RawListRecord>)
    requires forall i :: 0 <= i < |recs| ==> ListRecordComplete(c, recs[i])
    ensures ImportRecords(c, recs).Success?
    ensures var d := ImportRecords(c, recs).value;
      var ids := ParsedIds(c, recs);
      && (forall k :: k in d.values <==> k in ids)
      && FollowsOrder(d.keys, ids)
      && (forall k :: k in d.values ==> LastEntry(c, recs, k) == Some(d.values[k]))
  {
    ImportRecordsSucceeds(c, recs);
    if recs != [] {
      var front := recs[..|recs| - 1];
      var rec := recs[|recs| - 1];
      ImportRecordsStep(c, recs);
      ImportRecordsCorrect(c, front);
      var d := ImportRecords(c, front).value;
      var k := c.parse(rec.id.value).value;
      var ids := ParsedIds(c, front);
      assert ParsedIds(c, recs) == ids + [k];
      if k in d.values {
        FollowsOrderExtend(d.keys, ids, k);
      } else {
        FollowsOrderAppend(d.keys, ids, k);
      }
    }
  }

  /** `import_enabled_list`: an unreadable document is logged and reads as empty. */
  method ImportEnabledList(c: UuidCodec, doc: Option<seq<RawListRecord>>)
    returns (r: Result<Dict<ListEntry>, Crash>, log: seq<Warning>)
    ensures doc.None? ==> r == Success(Dict([], map[])) && log == [ImportUnreadable]
    ensures doc.Some? ==> r == ImportRecords(c, doc.value) && log == []
  {
    if doc.None? {
      return Success(Dict([], map[])), [ImportUnreadable];
    }
    var recs := doc.value;
    var d: Dict<ListEntry> := Dict([], map[]);
    log := [];
    var i := 0;
    while i < |recs|
      invariant 0 <= i <= |recs|
      invariant ImportRecords(c, recs[..i]) == Success(d)
    {
      assert recs[..i + 1][..i] == recs[..i];
      var step := ImportRecord(c, d, recs[i]);
      if step.Failure? {
        ImportFailureSticks(c, recs, i + 1);
        return step, log;
      }
      d := step.value;
      i := i + 1;
    }
    assert recs[..i] == recs;
    r := Success(d);
  }

  /** Once the parse loop of `import_enabled_list` has raised on a prefix, the
      rest of the document changes nothing: the early return of `ImportEnabledList`. */
  lemma {:induction false} ImportFailureSticks(c: UuidCodec, recs: seq<RawListRecord>, n: nat)
    requires n <= |recs| && ImportRecords(c, recs[..n]).Failure?
    ensures ImportRecords(c, recs) == ImportRecords(c, recs[..n])
    decreases |recs| - n
  {
    if n < |recs| {
      assert recs[..n + 1][..n] == recs[..n];
      ImportFailureSticks(c, recs, n + 1);
    } else {
      assert recs[..n] == recs;
    }
  }

  /** The record `export_enabled_list` writes for a table entry (Functional.py:167-172). */
  function ExportEntry(c: UuidCodec, m: ModRecord): ListEntry {
    ListEntry(m.displayName, m.enabled, c.format(m.id), m.steamId)
  }

  /** Whether the export writes entry `k`: enabled, and not blacklisted unless
      blacklisted entries are included. */
  predicate Exported(table: ModTable, blacklist: set<nat>, includeIgnored: bool, k: nat) {
    k in table && table[k].enabled && (k !in blacklist || includeIgnored)
  }

  /** The export loop (Functional.py:157-172) over `order`; an id missing from
      the table raises KeyError. */
  function ExportRecords(c: UuidCodec, table: ModTable, blacklist: set<nat>, includeIgnored: bool, order: seq<nat>)
    : (r: Result<Dict<ListEntry>, Crash>)
    ensures r.Failure? ==> r.error.UnknownMod? && r.error.id in order && r.error.id !in table
  {
    if order == [] then Success(Dict([], map[]))
    else
      match ExportRecords(c, table, blacklist, includeIgnored, order[..|order| - 1])
      case Failure(e) => Failure(e)
      case Success(d) =>
        var k := order[|order| - 1];
        if k !in table then Failure(UnknownMod(k))
        else
          var write := if k in blacklist then includeIgnored else true;
          if table[k].enabled && write then Success(Put(d, k, ExportEntry(c, table[k]))) else Success(d)
  }

  /** The export fails exactly when `order` names an id the table lacks. */
  lemma {:induction false} ExportSucceeds(
    c: UuidCodec, table: ModTable, blacklist: set<nat>, includeIgnored: bool, order: seq<nat>)
    ensures ExportRecords(c, table, blacklist, includeIgnored, order).Success?
        <==> forall i :: 0 <= i < |order| ==> order[i] in table
  {
    if order != [] {
      var front := order[..|order| - 1];
      ExportSucceeds(c, table, blacklist, includeIgnored, front);
      if (forall i :: 0 <= i < |order| ==> order[i] in table) {
        assert forall i :: 0 <= i < |front| ==> front[i] == order[i];
      } else {
        var i :| 0 <= i < |order| && order[i] !in table;
        if i < |front| {
          assert front[i] == order[i];
        }
      }
    }
  }

  /** What the export holds after a prefix `order` of the order: once each,
      exactly the enabled and selected ids, each with its display name,
      `enabled` true, its canonical id text and its Steam id. */
  ghost predicate ExportContents(
    c: UuidCodec, table: ModTable, blacklist: set<nat>, includeIgnored: bool, order: seq<nat>, d: Dict<ListEntry>)
  {
    && WellFormed(d)
    && (forall k :: k in d.values <==> k in order && Exported(table, blacklist, includeIgnored, k))
    && (forall k :: k in d.values ==>
          k in table && d.values[k] == ListEntry(table[k].displayName, true, c.format(k), table[k].steamId))
  }

  /** The dict after one more iteration of the export loop over a known id. */
  function ExportNext(c: UuidCodec, table: ModTable, blacklist: set<nat>, includeIgnored: bool, k: nat, d: Dict<ListEntry>)
    : Dict<ListEntry>
    requires k in table
  {
    if Exported(table, blacklist, includeIgnored, k) then Put(d, k, ExportEntry(c, table[k])) else d
  }

  /** One iteration of the export loop keeps the contents right. */
  lemma ExportContentsStep(
    c: UuidCodec, table: ModTable, blacklist: set<nat>, includeIgnored: bool, front: seq<nat>, k: nat, d: Dict<ListEntry>)
    requires forall k :: k in table ==> table[k].id == k
    requires k in table
    requires ExportContents(c, table, blacklist, includeIgnored, front, d)
    ensures ExportContents(c, table, blacklist, includeIgnored, front + [k], ExportNext(c, table, blacklist, includeIgnored, k, d))
  {
    assert forall x :: x in front + [k] <==> x in front || x == k;
  }

  /** One iteration of the export loop keeps the keys in the order of first
      appearance. */
  lemma ExportOrderStep(
    c: UuidCodec, table: ModTable, blacklist: set<nat>, includeIgnored: bool, front: seq<nat>, k: nat, d: Dict<ListEntry>)
    requires k in table
    requires forall x :: x in d.values <==> x in front && Exported(table, blacklist, includeIgnored, x)
    requires FollowsOrder(d.keys, front)
    ensures FollowsOrder(ExportNext(c, table, blacklist, includeIgnored, k, d).keys, front + [k])
  {
    if Exported(table, blacklist, includeIgnored, k) && k !in d.values {
      assert k !in front;
      FollowsOrderAppend(d.keys, front, k);
    } else {
      FollowsOrderExtend(d.keys, front, k);
    }
  }

  /** When every id of `order` is in the table, the export succeeds, holding
      the contents above in the order of first appearance in `order`. */
  lemma {:induction false} ExportSelectsEnabled(
    c: UuidCodec, table: ModTable, blacklist: set<nat>, includeIgnored: bool, order: seq<nat>)
    requires forall k :: k in table ==> table[k].id == k
    requires forall i :: 0 <= i < |order| ==> order[i] in table
    ensures var r := ExportRecords(c, table, blacklist, includeIgnored, order);
      && r.Success?
      && ExportContents(c, table, blacklist, includeIgnored, order, r.value)
      && FollowsOrder(r.value.keys, order)
  {
    if order != [] {
      var front := order[..|order| - 1];
      var k := order[|order| - 1];
      assert forall i :: 0 <= i < |front| ==> front[i] == order[i];
      ExportSelectsEnabled(c, table, blacklist, includeIgnored, front);
      var d := ExportRecords(c, table, blacklist, includeIgnored, front).value;
      ExportContentsStep(c, table, blacklist, includeIgnored, front, k, d);
      ExportOrderStep(c, table, blacklist, includeIgnored, front, k, d);
      SplitLast(order);
      assert ExportRecords(c, table, blacklist, includeIgnored, order)
          == Success(ExportNext(c, table, blacklist, includeIgnored, k, d));
    }
  }

  /** The record `json.dump` writes for one dict value. */
  function RenderEntry(v: ListEntry): RawListRecord {
    RawListRecord(Some(v.id), Some(v.displayName), Some(v.enabled), Some(v.steamId))
  }

  /** The document `json.dump` writes for a dict, record by record in key order. */
  function Render(keys: seq<nat>, values: map<nat, ListEntry>): (recs: seq<RawListRecord>)
    requires forall k :: k in keys ==> k in values
    ensures |recs| == |keys|
  {
    if keys == [] then []
    else Render(keys[..|keys| - 1], values) + [RenderEntry(values[keys[|keys| - 1]])]
  }

  /** Reading back one rendered record whose text parses to a new key `k`
      appends `k` with the same value. */
  lemma ImportRenderedEntry(c: UuidCodec, d: Dict<ListEntry>, v: ListEntry, k: nat)
    requires c.parse(v.id) == Some(k) && k !in d.values
    ensures ImportRecord(c, d, RenderEntry(v)) == Success(Dict(d.keys + [k], d.values[k := v]))
  {
    assert ListEntry(v.displayName, v.enabled, v.id, v.steamId) == v;
  }

  /** Reading back a rendered dict whose every record carries text that parses
      to its own key gives the same dict. */
  lemma {:induction false} ImportRenderRoundTrip(c: UuidCodec, keys: seq<nat>, values: map<nat, ListEntry>)
    requires NoDups(keys)
    requires forall k :: k in keys ==> k in values && c.parse(values[k].id) == Some(k)
    ensures var r := ImportRecords(c, Render(keys, values));
      && r.Success? && r.value.keys == keys
      && (forall k :: k in keys ==> k in r.value.values && r.value.values[k] == values[k])
  {
    if keys != [] {
      var front := keys[..|keys| - 1];
      var k := keys[|keys| - 1];
      assert forall x :: x in front ==> x in keys;
      ImportRenderRoundTrip(c, front, values);
      var prev := ImportRecords(c, Render(front, values)).value;
      assert k !in prev.values;
      assert Render(keys, values) == Render(front, values) + [RenderEntry(values[k])];
      ImportRecordsSnoc(c, Render(front, values), RenderEntry(values[k]));
      ImportRenderedEntry(c, prev, values[k], k);
      SplitLast(keys);
      AgreeExtend(prev.values, front, values, k);
    }
  }

  /** A map that agrees with `values` on `front` and is then updated at `k`
      agrees with it on `front + [k]`. */
  lemma AgreeExtend(m: map<nat, ListEntry>, front: seq<nat>, values: map<nat, ListEntry>, k: nat)
    requires k in values
    requires forall x :: x in front ==> x in values && x in m && m[x] == values[x]
    ensures forall x :: x in front + [k] ==> x in values && x in m[k := values[k]] && m[k := values[k]][x] == values[x]
  {
  }

  /** The parse loop over one more record. */
  lemma ImportRecordsSnoc(c: UuidCodec, recs: seq<RawListRecord>, rec: RawListRecord)
    ensures var prev := ImportRecords(c, recs);
      ImportRecords(c, recs + [rec]) == if prev.Failure? then prev else ImportRecord(c, prev.value, rec)
  {
    assert (recs + [rec])[..|recs|] == recs;
  }

  /** Round trip: importing what the export wrote gives back the exported dict. */
  lemma ExportImportRoundTrip(c: UuidCodec, table: ModTable, blacklist: set<nat>, includeIgnored: bool, order: seq<nat>)
    requires Lawful(c)
    requires forall k :: k in table ==> table[k].id == k && k < UUID_LIMIT
    requires forall i :: 0 <= i < |order| ==> order[i] in table
    ensures var r := ExportRecords(c, table, blacklist, includeIgnored, order);
      r.Success? && WellFormed(r.value) && ImportRecords(c, Render(r.value.keys, r.value.values)) == r
  {
    ExportSelectsEnabled(c, table, blacklist, includeIgnored, order);
    var r := ExportRecords(c, table, blacklist, includeIgnored, order);
    ExportedKeysCanonical(c, table, r.value);
    ImportRenderDict(c, r.value);
  }

  /** The round trip for a whole well-formed dict. */
  lemma ImportRenderDict(c: UuidCodec, d: Dict<ListEntry>)
    requires WellFormed(d)
    requires forall k :: k in d.values ==> c.parse(d.values[k].id) == Some(k)
    ensures ImportRecords(c, Render(d.keys, d.values)) == Success(d)
  {
    ImportRenderRoundTrip(c, d.keys, d.values);
    var r := ImportRecords(c, Render(d.keys, d.values)).value;
    assert r.values == d.values;
  }

  lemma ExportedKeysCanonical(c: UuidCodec, table: ModTable, d: Dict<ListEntry>)
    requires forall k :: k in table ==> k < UUID_LIMIT
    requires WellFormed(d)
    requires Lawful(c)
    requires forall k :: k in d.values ==> k in table && d.values[k].id == c.format(k)
    ensures forall k :: k in d.values ==> c.parse(d.values[k].id) == Some(k)
  {
    forall k | k in d.values ensures c.parse(d.values[k].id) == Some(k) {
      assert k < UUID_LIMIT;
    }
  }
}
