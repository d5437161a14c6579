/** `ModLoader` (Functional.py:8-332): the mod table `mod_dict`, the identifier
    index `mod_lookup`, the two order documents and the blacklist, and the
    operations that reconcile them. Documents come in already parsed; the
    lists the writers would dump stay in the `guiOrder`/`enabledList` fields.
    Console messages of handled errors go to `log`; removals of the signature
    file are counted in `invalidations`. */
module Loader {
  import opened Common
  import opened Registry
  import opened NameSort
  import opened EnabledList
  import opened ImportMerge
  import opened OrderWriters

  /** A parsed order document: the value of its list key (`modsOrder` or
      `enabled_mods`), `None` when the key is absent. */
  datatype OrderDocument = OrderDocument(order: Option<seq<string>>)

  /** `UUID(s).int` over a list of id texts; the first text that does not
      parse raises ValueError. */
  function ParseOrder(c: UuidCodec, names: seq<string>): (r: Result<seq<nat>, Crash>)
    ensures r.Success? <==> forall i :: 0 <= i < |names| ==> c.parse(names[i]).Some?
    ensures r.Success? ==> |r.value| == |names| && forall i :: 0 <= i < |names| ==> Some(r.value[i]) == c.parse(names[i])
    ensures r.Failure? ==> r.error.MalformedId? && r.error.text in names && c.parse(r.error.text).None?
  {
    if names == [] then Success([])
    else
      var front := names[..|names| - 1];
      var s := names[|names| - 1];
      assert forall i :: 0 <= i < |front| ==> front[i] == names[i];
      match ParseOrder(c, front)
      case Failure(e) => Failure(e)
      case Success(ids) =>
        if c.parse(s).None? then Failure(MalformedId(s)) else Success(ids + [c.parse(s).value])
  }

  /** What `get_uuid_int_list` computes from the `modsOrder` value; a missing
      key raises KeyError. */
  function CurrentOrder(c: UuidCodec, guiOrder: Option<seq<string>>): (r: Result<seq<nat>, Crash>)
    ensures r.Success? <==> guiOrder.Some? && forall i :: 0 <= i < |guiOrder.value| ==> c.parse(guiOrder.value[i]).Some?
    ensures r.Success? ==> |r.value| == |guiOrder.value|
    ensures r.Failure? ==> r.error == MissingKey("modsOrder") || r.error.MalformedId?
  {
    if guiOrder.None? then Failure(MissingKey("modsOrder")) else ParseOrder(c, guiOrder.value)
  }

  /** Round trip: the text the GUI writer emits for table keys parses back to
      those keys. */
  lemma ParseFormatted(c: UuidCodec, table: ModTable, ids: seq<nat>, out: seq<string>)
    requires Lawful(c)
    requires forall k :: k in table ==> table[k].id == k && k < UUID_LIMIT
    requires forall k :: k in ids ==> k in table
    requires |out| == |ids| && forall i :: 0 <= i < |ids| ==> out[i] == c.format(table[ids[i]].id)
    ensures ParseOrder(c, out) == Success(ids)
  {
    forall i | 0 <= i < |out| ensures c.parse(out[i]) == Some(ids[i]) {
      assert ids[i] in table;
    }
    var r := ParseOrder(c, out);
    assert r.value == ids;
  }

  /** The state after the registry load of the constructor
      (Functional.py:35-110): an unreadable document loads nothing. */
  function LoadedRegistry(c: UuidCodec, registry: Option<seq<RawRecord>>): (st: LoadState)
    ensures IndexConsistent(st.table, st.index)
    ensures forall k :: k in st.table ==> !st.table[k].enabled
  {
    if registry.None? then EmptyLoad.(log := [DatabaseUnreadable]) else LoadRegistry(c, registry.value)
  }

  /** The log line of the GUI-order read (Functional.py:112-121): one when the
      document is unreadable, lacks `modsOrder`, or holds an id that does not
      parse. */
  function GuiWarnings(c: UuidCodec, guiDoc: Option<OrderDocument>): seq<Warning> {
    if guiDoc.Some? && guiDoc.value.order.Some? && ParseOrder(c, guiDoc.value.order.value).Success? then []
    else [GuiOrderUnreadable]
  }

  /** The `modsOrder`/`enabled_mods` value a read document leaves in the loader. */
  function ListOf(doc: Option<OrderDocument>): Option<seq<string>> {
    if doc.Some? then doc.value.order else None
  }

  /** The display name of every table entry, by id: the sort key of `sort_global_list`. */
  function DisplayNames(table: ModTable): (names: map<nat, string>)
    ensures names.Keys == table.Keys
  {
    map k | k in table :: table[k].displayName
  }

  /** The ids of `ids` the table holds, in their order. */
  function Known(table: ModTable, ids: seq<nat>): (r: seq<nat>)
    ensures forall k :: k in r <==> k in ids && k in table
  {
    if ids == [] then []
    else
      var front := ids[..|ids| - 1];
      var k := ids[|ids| - 1];
      assert forall x :: x in ids <==> x in front || x == k;
      Known(table, front) + (if k in table then [k] else [])
  }

  /** The decorate loop of `sort_global_list` (Functional.py:276-281): each
      known id with its display name; unknown ids are skipped. */
  function DecorateIds(table: ModTable, ids: seq<nat>): (r: seq<(string, nat)>)
    ensures |r| <= |ids|
    ensures forall i :: 0 <= i < |r| ==> r[i].1 in table && r[i].1 in ids
  {
    if ids == [] then []
    else
      var k := ids[|ids| - 1];
      DecorateIds(table, ids[..|ids| - 1]) + (if k in table then [(table[k].displayName, k)] else [])
  }

  /** Every pair carries its id's display name, and the ids are the known ones in order. */
  lemma {:induction false} DecorateIdsSpec(table: ModTable, ids: seq<nat>)
    ensures Decorated(DecorateIds(table, ids), DisplayNames(table))
    ensures Undecorate(DecorateIds(table, ids)) == Known(table, ids)
  {
    if ids != [] {
      var k := ids[|ids| - 1];
      var front := ids[..|ids| - 1];
      DecorateIdsSpec(table, front);
      var tail: seq<(string, nat)> := if k in table then [(table[k].displayName, k)] else [];
      UndecorateAppend(DecorateIds(table, front), tail);
      assert Undecorate(tail) == (if k in table then [k] else []);
    }
  }

  /** The log lines of the same loop, one per skipped id. */
  function SkipWarnings(table: ModTable, ids: seq<nat>): seq<Warning> {
    if ids == [] then []
    else
      var k := ids[|ids| - 1];
      SkipWarnings(table, ids[..|ids| - 1]) + (if k in table then [] else [SortSkipped(k)])
  }

  /** The blacklisted ids: the keys of the ignore list. */
  function Blacklist(ignored: Dict<ListEntry>): set<nat> {
    ignored.values.Keys
  }

  /** The import step of `enable_import_list`: an unreadable document reads as empty. */
  function ImportedList(c: UuidCodec, doc: Option<seq<RawListRecord>>): Result<Dict<ListEntry>, Crash> {
    if doc.None? then Success(Dict([], map[])) else ImportRecords(c, doc.value)
  }

  function ImportLog(doc: Option<seq<RawListRecord>>): seq<Warning> {
    if doc.None? then [ImportUnreadable] else []
  }

  class ModLoader {
    const codec: UuidCodec
    var modDict: ModTable
    var modLookup: IdIndex
    var guiOrder: Option<seq<string>>
    var enabledList: Option<seq<string>>
    var ignoredList: Dict<ListEntry>
    var log: seq<Warning>
    ghost var invalidations: nat

    /** Every entry sits under its own 128-bit id and every index entry resolves. */
    ghost predicate Valid()
      reads this`modDict, this`modLookup
    {
      && Lawful(codec)
      && IndexConsistent(modDict, modLookup)
      && (forall k :: k in modDict ==> k < UUID_LIMIT)
    }

    /** `__init__`: the blacklist arrives already imported (its import can
        raise, which would stop the constructor); then the registry, the GUI
        order and the enabled list are read in that order. */
    constructor(codec: UuidCodec, ignored: Dict<ListEntry>, registry: Option<seq<RawRecord>>,
                guiDoc: Option<OrderDocument>, enabledDoc: Option<OrderDocument>)
      requires Lawful(codec)
      ensures Valid()
      ensures this.codec == codec && ignoredList == ignored && invalidations == 0
      ensures var st := LoadedRegistry(codec, registry);
        && modLookup == st.index
        && guiOrder == ListOf(guiDoc)
        && enabledList == ListOf(enabledDoc)
        && (ListOf(enabledDoc).None? ==>
              modDict == st.table && log == st.log + GuiWarnings(codec, guiDoc) + [EnabledListUnreadable])
        && (ListOf(enabledDoc).Some? ==>
              && modDict == EnableListed(st.table, st.index, ListOf(enabledDoc).value)
              && log == st.log + GuiWarnings(codec, guiDoc) + UnresolvedWarnings(st.index, ListOf(enabledDoc).value))
    {
      this.codec := codec;
      modDict := map[];
      modLookup := map[];
      guiOrder := None;
      enabledList := None;
      ignoredList := ignored;
      log := [];
      invalidations := 0;
      new;
      ghost var st := LoadedRegistry(codec, registry);
      if registry.None? {
        log := log + [DatabaseUnreadable];
      } else {
        LoadRecords(registry.value);
      }
      assert modDict == st.table && modLookup == st.index && log == st.log;
      assert this.codec == codec && ignoredList == ignored && invalidations == 0;
      LoadedRegistryKeysInRange(codec, registry);
      assert Valid();
      ReadGuiOrder(guiDoc);
      assert modDict == st.table && modLookup == st.index && log == st.log + GuiWarnings(codec, guiDoc);
      assert this.codec == codec && ignoredList == ignored && invalidations == 0;
      enabledList := ListOf(enabledDoc);
      if enabledList.None? {
        log := log + [EnabledListUnreadable];
      } else {
        ApplyEnabledList(enabledList.value);
      }
    }

    /** The registry loop of `__init__` (Functional.py:43-108), from an empty
        table; an exception ends it and keeps what was loaded. */
    method LoadRecords(rs: seq<RawRecord>)
      requires modDict == map[] && modLookup == map[] && log == []
      modifies this`modDict, this`modLookup, this`log
      ensures var st := LoadRegistry(codec, rs);
        modDict == st.table && modLookup == st.index && log == st.log
    {
      var lastId: Option<(string, nat)> := None;
      var lastRegistryId: Option<string> := None;
      var i := 0;
      while i < |rs|
        invariant 0 <= i <= |rs|
        invariant var st := LoadRegistry(codec, rs[..i]);
          && !st.aborted && st.table == modDict && st.index == modLookup && st.log == log
          && st.lastId == lastId && st.lastRegistryId == lastRegistryId
      {
        assert rs[..i + 1][..i] == rs[..i];
        var loaded;
        lastId, lastRegistryId, loaded := LoadOne(rs[i], lastId, lastRegistryId);
        if !loaded {
          LoadRegistryAbortSticks(codec, rs, i + 1);
          return;
        }
        i := i + 1;
      }
      assert rs[..i] == rs;
    }

    /** One iteration of the registry loop (Functional.py:44-108). `lastId`
        and `lastRegistryId` are the loop's locals, which keep the previous
        record's values; `loaded` is false when an exception ended the loop. */
    method LoadOne(r: RawRecord, lastId0: Option<(string, nat)>, lastRegistryId0: Option<string>)
      returns (lastId: Option<(string, nat)>, lastRegistryId: Option<string>, loaded: bool)
      modifies this`modDict, this`modLookup, this`log
      ensures LoadRecord(codec, LoadState(old(modDict), old(modLookup), lastId0, lastRegistryId0, false, old(log)), r)
           == LoadState(modDict, modLookup, lastId, lastRegistryId, !loaded, log)
    {
      lastId, lastRegistryId := lastId0, lastRegistryId0;
      if r.id.Some? {
        var parsed := codec.parse(r.id.value);
        if parsed.None? {
          log := log + [DatabaseUnreadable];
          return lastId, lastRegistryId, false;
        }
        lastId := Some((r.id.value, parsed.value));
      } else {
        log := log + [MissingField("id")];
      }
      if r.gameRegistryId.Some? {
        lastRegistryId := r.gameRegistryId;
      } else {
        log := log + [MissingField("gameRegistryId")];
      }
      if !IntConvertible(r.steamId) || !IntConvertible(r.timeUpdated) || lastId.None? || lastRegistryId.None? {
        log := log + [DatabaseUnreadable];
        return lastId0, lastRegistryId0, false;
      }
      var key := lastId.value.1;
      modDict := modDict[key := Sanitise(r, key, lastRegistryId.value)];
      modLookup := modLookup[lastRegistryId.value := key];
      modLookup := modLookup[lastId.value.0 := key];
      loaded := true;
    }

    /** The GUI-order read (Functional.py:112-121): the document's value is kept
        even when one of its ids does not parse, which only logs. */
    method ReadGuiOrder(guiDoc: Option<OrderDocument>)
      modifies this`guiOrder, this`log
      ensures guiOrder == ListOf(guiDoc) && log == old(log) + GuiWarnings(codec, guiDoc)
    {
      guiOrder := ListOf(guiDoc);
      if guiOrder.None? {
        log := log + [GuiOrderUnreadable];
        return;
      }
      var names := guiOrder.value;
      var i := 0;
      while i < |names|
        invariant 0 <= i <= |names|
        invariant forall j :: 0 <= j < i ==> codec.parse(names[j]).Some?
      {
        if codec.parse(names[i]).None? {
          log := log + [GuiOrderUnreadable];
          return;
        }
        i := i + 1;
      }
    }

    /** The enabled-list loop of `__init__` (Functional.py:128-132). */
    method ApplyEnabledList(names: seq<string>)
      requires Valid()
      modifies this`modDict, this`log
      ensures Valid()
      ensures modDict == EnableListed(old(modDict), modLookup, names)
      ensures log == old(log) + UnresolvedWarnings(modLookup, names)
    {
      var i := 0;
      while i < |names|
        invariant 0 <= i <= |names|
        invariant Valid()
        invariant modDict == EnableListed(old(modDict), modLookup, names[..i])
        invariant log == old(log) + UnresolvedWarnings(modLookup, names[..i])
      {
        assert names[..i + 1][..i] == names[..i];
        var s := names[i];
        if s in modLookup {
          modDict := modDict[modLookup[s] := modDict[modLookup[s]].(enabled := true)];
        } else {
          log := log + [UnresolvedReference(s)];
        }
        i := i + 1;
      }
      assert names[..i] == names;
    }

    /** `disable_mod`: clears the flag of a known id and removes the signature
        file; an unknown id is only logged. */
    method DisableMod(id: nat)
      requires Valid()
      modifies this`modDict, this`log, this`invalidations
      ensures Valid()
      ensures id in old(modDict) ==>
        && modDict == old(modDict)[id := old(modDict)[id].(enabled := false)]
        && log == old(log) && invalidations == old(invalidations) + 1
      ensures id !in old(modDict) ==>
        modDict == old(modDict) && log == old(log) + [InvalidMod(id)] && invalidations == old(invalidations)
    {
      if id in modDict {
        invalidations := invalidations + 1;
        modDict := modDict[id := modDict[id].(enabled := false)];
      } else {
        log := log + [InvalidMod(id)];
      }
    }

    /** `enable_mod`: sets the flag of a known id and removes the signature
        file; an unknown id is only logged. */
    method EnableMod(id: nat)
      requires Valid()
      modifies this`modDict, this`log, this`invalidations
      ensures Valid()
      ensures id in old(modDict) ==>
        && modDict == old(modDict)[id := old(modDict)[id].(enabled := true)]
        && log == old(log) && invalidations == old(invalidations) + 1
      ensures id !in old(modDict) ==>
        modDict == old(modDict) && log == old(log) + [InvalidMod(id)] && invalidations == old(invalidations)
    {
      if id in modDict {
        invalidations := invalidations + 1;
        modDict := modDict[id := modDict[id].(enabled := true)];
      } else {
        log := log + [InvalidMod(id)];
      }
    }

    /** `get_uuid_int_list`: the current GUI order as integer ids. */
    method GetUuidIntList() returns (r: Result<seq<nat>, Crash>)
      ensures r == CurrentOrder(codec, guiOrder)
    {
      if guiOrder.None? {
        return Failure(MissingKey("modsOrder"));
      }
      var names := guiOrder.value;
      var ids: seq<nat> := [];
      var i := 0;
      while i < |names|
        invariant 0 <= i <= |names|
        invariant ParseOrder(codec, names[..i]) == Success(ids)
      {
        assert names[..i + 1][..i] == names[..i];
        var parsed := codec.parse(names[i]);
        if parsed.None? {
          ParseFailureSticks(codec, names, i + 1);
          return Failure(MalformedId(names[i]));
        }
        ids := ids + [parsed.value];
        i := i + 1;
      }
      assert names[..i] == names;
      r := Success(ids);
    }

    /** `export_enabled_list` without the file write: an empty `order` means
        the current GUI order. What the dict holds is stated by
        `ExportSucceeds`, `ExportSelectsEnabled` and `ExportImportRoundTrip`. */
    method ExportEnabledList(order: seq<nat>, includeIgnored: bool) returns (r: Result<Dict<ListEntry>, Crash>)
      ensures var effective := if order == [] then CurrentOrder(codec, guiOrder) else Success(order);
        && (effective.Failure? ==> r == Failure(effective.error))
        && (effective.Success? ==>
              r == ExportRecords(codec, modDict, Blacklist(ignoredList), includeIgnored, effective.value))
    {
      var ids := order;
      if ids == [] {
        var current := GetUuidIntList();
        if current.Failure? {
          return Failure(current.error);
        }
        ids := current.value;
      }
      var ignoredKeys := Blacklist(ignoredList);
      var modList: Dict<ListEntry> := Dict([], map[]);
      var i := 0;
      while i < |ids|
        invariant 0 <= i <= |ids|
        invariant ExportRecords(codec, modDict, ignoredKeys, includeIgnored, ids[..i]) == Success(modList)
      {
        assert ids[..i + 1][..i] == ids[..i];
        var k := ids[i];
        if k !in modDict {
          ExportFailureSticks(codec, modDict, ignoredKeys, includeIgnored, ids, i + 1);
          return Failure(UnknownMod(k));
        }
        var write := if k in ignoredKeys then includeIgnored else true;
        if modDict[k].enabled && write {
          modList := Put(modList, k, ExportEntry(codec, modDict[k]));
        }
        i := i + 1;
      }
      assert ids[..i] == ids;
      r := Success(modList);
    }

    /** `enable_import_list`: import a list and, when it applies to the current
        order or is forced, rebuild the flags and the order from it; otherwise
        return the current order and change no flag. The signature file is not
        touched. `pinned` and `unpinned` name the two parts of the tail pass. */
    method EnableImportList(doc: Option<seq<RawListRecord>>, includeIgnored: bool, loadForced: bool)
      returns (r: Result<seq<nat>, Crash>, ghost pinned: seq<nat>, ghost unpinned: seq<nat>)
      requires Valid()
      modifies this`modDict, this`log
      ensures Valid()
      ensures modDict.Keys == old(modDict).Keys
      ensures var imp := ImportedList(codec, doc);
        imp.Failure? ==> r == Failure(imp.error) && modDict == old(modDict) && log == old(log) + ImportLog(doc)
      ensures var imp := ImportedList(codec, doc);
        var cur := CurrentOrder(codec, guiOrder);
        imp.Success? && cur.Failure? ==>
          r == Failure(cur.error) && modDict == old(modDict) && log == old(log) + ImportLog(doc)
      ensures var imp := ImportedList(codec, doc);
        var cur := CurrentOrder(codec, guiOrder);
        imp.Success? && cur.Success? && !Applicable(imp.value.values.Keys, Elements(cur.value), loadForced) ==>
          && r == cur && modDict == old(modDict)
          && log == old(log) + ImportLog(doc) + [ImportRejected(imp.value.values.Keys - Elements(cur.value))]
      ensures var imp := ImportedList(codec, doc);
        var cur := CurrentOrder(codec, guiOrder);
        var bl := Blacklist(ignoredList);
        imp.Success? && cur.Success? && Applicable(imp.value.values.Keys, Elements(cur.value), loadForced) ==>
          && ImportedFlags(old(modDict), modDict, imp.value.keys, Elements(cur.value), bl, includeIgnored)
          && log == old(log) + ImportLog(doc)
                  + ApplyWarnings(imp.value.keys, Elements(cur.value), old(modDict).Keys, bl, includeIgnored)
          && (r.Success? <==> Elements(cur.value) - Elements(imp.value.keys) <= old(modDict).Keys)
          && (r.Failure? ==> r.error.UnknownMod?)
          && (r.Success? ==>
                && r.value == pinned + Selected(imp.value.keys, Elements(cur.value), bl, includeIgnored) + unpinned
                && NoDups(r.value)
                && (forall k :: k in r.value <==> k in cur.value && (k !in imp.value.keys || Adopted(bl, includeIgnored, k)))
                && (forall k :: k in pinned <==> k in cur.value && k !in imp.value.keys && modDict[k].enabled)
                && (forall k :: k in unpinned <==> k in cur.value && k !in imp.value.keys && !modDict[k].enabled))
    {
      pinned, unpinned := [], [];
      var imported, importLog := ImportEnabledList(codec, doc);
      log := log + importLog;
      if imported.Failure? {
        return Failure(imported.error), pinned, unpinned;
      }
      var newList := imported.value;
      var current := GetUuidIntList();
      if current.Failure? {
        return Failure(current.error), pinned, unpinned;
      }
      var dictKeys := Elements(current.value);
      var importKeys := newList.values.Keys;
      if !(importKeys <= dictKeys || loadForced) {
        log := log + [ImportRejected(importKeys - dictKeys)];
        r := GetUuidIntList();
        return;
      }
      r, pinned, unpinned := MergeImport(newList.keys, current.value, includeIgnored);
    }

    /** The three passes of `enable_import_list` once the import applies
        (Functional.py:216-254), for the duplicate-free ids `imports` of the
        imported list and the current order `order`. */
    method MergeImport(imports: seq<nat>, order: seq<nat>, includeIgnored: bool)
      returns (r: Result<seq<nat>, Crash>, ghost pinned: seq<nat>, ghost unpinned: seq<nat>)
      requires Valid()
      requires NoDups(imports)
      modifies this`modDict, this`log
      ensures Valid()
      ensures modDict.Keys == old(modDict).Keys
      ensures var bl := Blacklist(ignoredList);
        && ImportedFlags(old(modDict), modDict, imports, Elements(order), bl, includeIgnored)
        && log == old(log) + ApplyWarnings(imports, Elements(order), old(modDict).Keys, bl, includeIgnored)
      ensures r.Success? <==> Elements(order) - Elements(imports) <= old(modDict).Keys
      ensures r.Failure? ==> r.error.UnknownMod?
      ensures var bl := Blacklist(ignoredList);
        r.Success? ==>
          && r.value == pinned + Selected(imports, Elements(order), bl, includeIgnored) + unpinned
          && NoDups(r.value)
          && (forall k :: k in r.value <==> k in order && (k !in imports || Adopted(bl, includeIgnored, k)))
          && (forall k :: k in pinned <==> k in order && k !in imports && modDict[k].enabled)
          && (forall k :: k in unpinned <==> k in order && k !in imports && !modDict[k].enabled)
    {
      pinned, unpinned := [], [];
      var dictKeys := Elements(order);
      var ignoredKeys := Blacklist(ignoredList);
      ghost var table0 := modDict;
      ghost var log0 := log;
      ResetFlags(ignoredKeys, includeIgnored);
      ghost var reset := modDict;
      assert reset == ResetTable(table0, ignoredKeys, includeIgnored) && log == log0;
      var pool, loadOrder := ApplyImported(imports, dictKeys, ignoredKeys, includeIgnored);
      ghost var applied := ApplyImports(MergeState(dictKeys, [], reset, log0), imports, ignoredKeys, includeIgnored);
      assert applied == MergeState(pool, loadOrder, modDict, log);
      ApplyImportsClosedForm(MergeState(dictKeys, [], reset, log0), imports, ignoredKeys, includeIgnored);
      ImportFlags(table0, dictKeys, imports, ignoredKeys, includeIgnored, log0);
      assert Blacklist(ignoredList) == ignoredKeys && old(modDict) == table0;
      assert ImportedFlags(old(modDict), modDict, imports, Elements(order), Blacklist(ignoredList), includeIgnored);
      assert pool == dictKeys - Elements(imports);
      assert loadOrder == Selected(imports, dictKeys, ignoredKeys, includeIgnored);
      var split := SplitTail(pool, modDict);
      if split.Failure? {
        return Failure(split.error), pinned, unpinned;
      }
      var head, tail := split.value.0, split.value.1;
      pinned, unpinned := head, tail;
      MergedOrderShape(dictKeys, imports, ignoredKeys, includeIgnored, head, tail);
      r := Success(MergedOrder(head, loadOrder + tail));
    }

    /** The reset pass of `enable_import_list` (Functional.py:218-224), over the
        table in any order. */
    method ResetFlags(blacklist: set<nat>, includeIgnored: bool)
      requires Valid()
      modifies this`modDict
      ensures Valid()
      ensures modDict == ResetTable(old(modDict), blacklist, includeIgnored)
    {
      var table := modDict;
      var rest := table.Keys;
      while rest != {}
        invariant rest <= table.Keys
        invariant table.Keys == modDict.Keys
        invariant forall k :: k in table ==>
          table[k] == if k in rest then modDict[k] else ResetEntry(modDict[k], k, blacklist, includeIgnored)
        decreases rest
      {
        var k :| k in rest;
        if k in blacklist {
          if includeIgnored {
            table := table[k := table[k].(enabled := false)];
          }
        } else {
          table := table[k := table[k].(enabled := false)];
        }
        rest := rest - {k};
      }
      assert table == ResetTable(modDict, blacklist, includeIgnored);
      modDict := table;
    }

    /** The apply pass of `enable_import_list` (Functional.py:226-241). */
    method ApplyImported(keys: seq<nat>, pool0: set<nat>, blacklist: set<nat>, includeIgnored: bool)
      returns (pool: set<nat>, loadOrder: seq<nat>)
      requires Valid()
      modifies this`modDict, this`log
      ensures Valid()
      ensures ApplyImports(MergeState(pool0, [], old(modDict), old(log)), keys, blacklist, includeIgnored)
           == MergeState(pool, loadOrder, modDict, log)
    {
      pool, loadOrder := pool0, [];
      var i := 0;
      while i < |keys|
        invariant 0 <= i <= |keys|
        invariant Valid()
        invariant ApplyImports(MergeState(pool0, [], old(modDict), old(log)), keys[..i], blacklist, includeIgnored)
               == MergeState(pool, loadOrder, modDict, log)
      {
        assert keys[..i + 1][..i] == keys[..i];
        var k := keys[i];
        if k !in pool {
          log := log + [NonUnique(k)];
        } else {
          pool := pool - {k};
          if Adopted(blacklist, includeIgnored, k) {
            loadOrder := loadOrder + [k];
            if k in modDict {
              modDict := modDict[k := modDict[k].(enabled := true)];
            } else {
              log := log + [NonUnique(k)];
            }
          }
        }
        i := i + 1;
      }
      assert keys[..i] == keys;
    }

    /** `sort_global_list` with `Rev=True`: the known ids of `listOrder` sorted
        by display name, non-increasing and stable; unknown ids are dropped
        with a log line. The caller's list is replaced by `sorted`. */
    method SortGlobalList(listOrder: seq<nat>) returns (sorted: seq<nat>)
      modifies this`log
      ensures sorted == Undecorate(SortDesc(DecorateIds(modDict, listOrder)))
      ensures multiset(sorted) == multiset(Known(modDict, listOrder))
      ensures forall i :: 0 <= i < |sorted| ==> sorted[i] in modDict
      ensures forall i, j :: 0 <= i < j < |sorted| ==>
        StrLe(modDict[sorted[j]].displayName, modDict[sorted[i]].displayName)
      ensures forall n :: IdsNamed(sorted, DisplayNames(modDict), n) == IdsNamed(Known(modDict, listOrder), DisplayNames(modDict), n)
      ensures log == old(log) + SkipWarnings(modDict, listOrder)
    {
      var names: seq<(string, nat)> := [];
      var i := 0;
      while i < |listOrder|
        invariant 0 <= i <= |listOrder|
        invariant names == DecorateIds(modDict, listOrder[..i])
        invariant log == old(log) + SkipWarnings(modDict, listOrder[..i])
      {
        assert listOrder[..i + 1][..i] == listOrder[..i];
        var k := listOrder[i];
        if k in modDict {
          names := names + [(modDict[k].displayName, k)];
        } else {
          log := log + [SortSkipped(k)];
        }
        i := i + 1;
      }
      assert listOrder[..i] == listOrder;
      sorted := Undecorate(SortDesc(names));
      SortGlobalSpec(modDict, listOrder);
    }

    /** `write_gui_order` without the file write: `modsOrder` becomes the
        canonical text of every table key exactly once, the keys `listOrder`
        names first, and it parses back to `ids`. */
    method WriteGuiOrder(listOrder: seq<nat>) returns (ghost ids: seq<nat>)
      requires Valid()
      modifies this`guiOrder, this`log
      ensures guiOrder.Some? && NoDups(guiOrder.value)
      ensures |guiOrder.value| == |ids| && forall i :: 0 <= i < |ids| ==> guiOrder.value[i] == codec.format(ids[i])
      ensures NoDups(ids) && (forall k :: k in ids <==> k in modDict)
      ensures CurrentOrder(codec, guiOrder) == Success(ids)
      ensures var d := Consume(modDict.Keys, listOrder);
        && |d.consumed| <= |ids| && ids[..|d.consumed|] == d.consumed
        && log == old(log) + (d.log + Leaks(ids[|d.consumed|..]))
    {
      var out, written;
      out, written, ids := BuildGuiOrder(codec, modDict, listOrder);
      FormattedDistinct(codec, modDict, ids, out);
      ParseFormatted(codec, modDict, ids, out);
      guiOrder := Some(out);
      log := log + written;
    }

    /** `write_mod_enabled_order` without the file write, with the leaked
        branch appending as intended: `enabled_mods` becomes the registry id of
        every enabled entry exactly once, the enabled ids `listOrder` names
        first, in the order of their first mention. */
    method WriteModEnabledOrder(listOrder: seq<nat>) returns (ghost ids: seq<nat>)
      modifies this`enabledList, this`log
      ensures NoDups(ids) && (forall k :: k in ids <==> k in modDict && modDict[k].enabled)
      ensures enabledList.Some? && |enabledList.value| == |ids|
      ensures forall i :: 0 <= i < |ids| ==> enabledList.value[i] == modDict[ids[i]].gameRegistryId
      ensures var d := Consume(modDict.Keys, listOrder);
        var e := EnabledOf(d.consumed, modDict);
        && |e| <= |ids| && ids[..|e|] == e
        && log == old(log) + (d.log + Leaks(ids[|e|..]))
    {
      var out, written;
      out, written, ids := BuildEnabledOrder(modDict, listOrder);
      enabledList := Some(out);
      log := log + written;
    }
  }

  /** The sorted global list holds the known ids of `listOrder` with their
      multiplicities, in non-increasing name order, equal names in their
      original relative order. */
  lemma SortGlobalSpec(table: ModTable, listOrder: seq<nat>)
    ensures var sorted := Undecorate(SortDesc(DecorateIds(table, listOrder)));
      && multiset(sorted) == multiset(Known(table, listOrder))
      && (forall i :: 0 <= i < |sorted| ==> sorted[i] in table)
      && (forall i, j :: 0 <= i < j < |sorted| ==> StrLe(table[sorted[j]].displayName, table[sorted[i]].displayName))
      && (forall n :: IdsNamed(sorted, DisplayNames(table), n) == IdsNamed(Known(table, listOrder), DisplayNames(table), n))
  {
    var names := DisplayNames(table);
    DecorateIdsSpec(table, listOrder);
    SortByNameCorrect(DecorateIds(table, listOrder), names);
    var sorted := Undecorate(SortDesc(DecorateIds(table, listOrder)));
    forall i, j | 0 <= i < j < |sorted| ensures StrLe(table[sorted[j]].displayName, table[sorted[i]].displayName) {
      assert StrLe(names[sorted[j]], names[sorted[i]]);
    }
  }

  /** Once the UUID parse of the GUI order has raised on a prefix, the rest of
      the list changes nothing: the early return of `GetUuidIntList`. */
  lemma {:induction false} ParseFailureSticks(c: UuidCodec, names: seq<string>, n: nat)
    requires n <= |names| && ParseOrder(c, names[..n]).Failure?
    ensures ParseOrder(c, names) == ParseOrder(c, names[..n])
    decreases |names| - n
  {
    if n < |names| {
      assert names[..n + 1][..n] == names[..n];
      ParseFailureSticks(c, names, n + 1);
    } else {
      assert names[..n] == names;
    }
  }

  /** Once the export has raised on a prefix of the order, the rest changes
      nothing: the early return of `ExportEnabledList`. */
  lemma {:induction false} ExportFailureSticks(
    c: UuidCodec, table: ModTable, blacklist: set<nat>, includeIgnored: bool, order: seq<nat>, n: nat)
    requires n <= |order| && ExportRecords(c, table, blacklist, includeIgnored, order[..n]).Failure?
    ensures ExportRecords(c, table, blacklist, includeIgnored, order)
         == ExportRecords(c, table, blacklist, includeIgnored, order[..n])
    decreases |order| - n
  {
    if n < |order| {
      assert order[..n + 1][..n] == order[..n];
      ExportFailureSticks(c, table, blacklist, includeIgnored, order, n + 1);
    } else {
      assert order[..n] == order;
    }
  }

  /** Exporting the enabled list of an order and merging it back into the same
      order (`export_enabled_list` then `enable_import_list`, Functional.py:151-241):
      the document reads back as the exported dict, and afterwards an entry the
      blacklist lets through is enabled exactly when the order names it and it
      was enabled before; a held-back entry is untouched. */
  lemma ExportMergeFlags(
    c: UuidCodec, table: ModTable, blacklist: set<nat>, includeIgnored: bool, order: seq<nat>, log: seq<Warning>)
    requires Lawful(c)
    requires forall k :: k in table ==> table[k].id == k && k < UUID_LIMIT
    requires forall i :: 0 <= i < |order| ==> order[i] in table
    ensures var r := ExportRecords(c, table, blacklist, includeIgnored, order);
      r.Success? && WellFormed(r.value) && ImportRecords(c, Render(r.value.keys, r.value.values)) == r
    ensures var exp := ExportRecords(c, table, blacklist, includeIgnored, order).value;
      var after := ApplyImports(MergeState(Elements(order), [], ResetTable(table, blacklist, includeIgnored), log),
        exp.keys, blacklist, includeIgnored).table;
      && after.Keys == table.Keys
      && (forall k :: k in table && Adopted(blacklist, includeIgnored, k) ==>
            after[k] == table[k].(enabled := k in Elements(order) && table[k].enabled))
      && (forall k :: k in table && !Adopted(blacklist, includeIgnored, k) ==> after[k] == table[k])
  {
    ExportImportRoundTrip(c, table, blacklist, includeIgnored, order);
    ExportSelectsEnabled(c, table, blacklist, includeIgnored, order);
    var exp := ExportRecords(c, table, blacklist, includeIgnored, order).value;
    ImportFlags(table, Elements(order), exp.keys, blacklist, includeIgnored, log);
  }

  lemma LoadedRegistryKeysInRange(c: UuidCodec, registry: Option<seq<RawRecord>>)
    requires Lawful(c)
    ensures forall k :: k in LoadedRegistry(c, registry).table ==> k < UUID_LIMIT
  {
    if registry.Some? {
      LoadRegistryKeysInRange(c, registry.value);
    }
  }
}
