/** Registry loading and enabled-list application of `ModLoader.__init__`
    (Functional.py): every registry record becomes a sanitised mod record keyed by
    the integer form of its UUID, the identifier index maps both the
    `gameRegistryId` and the id text to that key, and the enabled list sets the
    `enabled` flag of every entry it resolves. */
module Registry {
  import opened Common

  /** Outcome of Python's `int(value)` on a JSON field. */
  datatype IntField = IntValue(n: int) | NotAnInt

  /** A registry record as parsed from JSON; `None` is an absent key. */
  datatype RawRecord = RawRecord(
    id: Option<string>,
    gameRegistryId: Option<string>,
    displayName: Option<string>,
    requiredVersion: Option<string>,
    source: Option<string>,
    status: Option<string>,
    steamId: Option<IntField>,
    tags: Option<seq<string>>,
    thumbnailPath: Option<string>,
    thumbnailUrl: Option<string>,
    timeUpdated: Option<IntField>)

  /** A sanitised entry of `mod_dict`; `id` is the UUID's integer. */
  datatype ModRecord = ModRecord(
    displayName: string,
    enabled: bool,
    gameRegistryId: string,
    id: nat,
    requiredVersion: string,
    source: string,
    status: string,
    steamId: int,
    tags: seq<string>,
    thumbnailPath: string,
    thumbnailUrl: string,
    timeUpdated: int)

  type ModTable = map<nat, ModRecord>
  type IdIndex = map<string, nat>

  // Defaults of the optional fields, spelled as the program spells them.
  const DEFAULT_DISPLAY_NAME: string := "Unnammed Mod"
  const DEFAULT_REQUIRED_VERSION: string := "0.0.0"
  const DEFAULT_SOURCE: string := "none"
  const DEFAULT_STATUS: string := "undefined"
  const DEFAULT_TAGS: seq<string> := [""]

  /** Every entry sits under its own id, and every index entry resolves. */
  ghost predicate IndexConsistent(table: ModTable, index: IdIndex) {
    && (forall k :: k in table ==> table[k].id == k)
    && (forall s :: s in index ==> index[s] in table)
  }

  predicate IntConvertible(f: Option<IntField>) {
    f != Some(NotAnInt)
  }

  /** `v` is the field's value when present and the default `d` when absent. */
  ghost predicate Defaulted<T>(o: Option<T>, v: T, d: T) {
    (o.None? ==> v == d) && (o.Some? ==> v == o.value)
  }

  /** `v` is the converted integer when present and 0 when absent. */
  ghost predicate IntDefaulted(o: Option<IntField>, v: int) {
    (o.None? ==> v == 0) && (o.Some? ==> o.value.IntValue? && v == o.value.n)
  }

  /** The record built at Functional.py:93-106 from one registry record. */
  function Sanitise(r: RawRecord, key: nat, registryId: string): (m: ModRecord)
    requires IntConvertible(r.steamId) && IntConvertible(r.timeUpdated)
    ensures m.id == key && m.gameRegistryId == registryId && !m.enabled
    ensures Defaulted(r.displayName, m.displayName, DEFAULT_DISPLAY_NAME)
    ensures Defaulted(r.requiredVersion, m.requiredVersion, DEFAULT_REQUIRED_VERSION)
    ensures Defaulted(r.source, m.source, DEFAULT_SOURCE)
    ensures Defaulted(r.status, m.status, DEFAULT_STATUS)
    ensures Defaulted(r.tags, m.tags, DEFAULT_TAGS)
    ensures Defaulted(r.thumbnailPath, m.thumbnailPath, "")
    ensures Defaulted(r.thumbnailUrl, m.thumbnailUrl, "")
    ensures IntDefaulted(r.steamId, m.steamId) && IntDefaulted(r.timeUpdated, m.timeUpdated)
  {
    ModRecord(
      displayName := OrDefault(r.displayName, DEFAULT_DISPLAY_NAME),
      enabled := false,
      gameRegistryId := registryId,
      id := key,
      requiredVersion := OrDefault(r.requiredVersion, DEFAULT_REQUIRED_VERSION),
      source := OrDefault(r.source, DEFAULT_SOURCE),
      status := OrDefault(r.status, DEFAULT_STATUS),
      steamId := IntOrZero(r.steamId),
      tags := OrDefault(r.tags, DEFAULT_TAGS),
      thumbnailPath := OrDefault(r.thumbnailPath, ""),
      thumbnailUrl := OrDefault(r.thumbnailUrl, ""),
      timeUpdated := IntOrZero(r.timeUpdated))
  }

  /** An optional field's value, or its default when the key is absent. */
  function OrDefault<T>(o: Option<T>, d: T): T {
    if o.Some? then o.value else d
  }

  /** `int(record[field])` when the key is present, else 0. */
  function IntOrZero(o: Option<IntField>): int
    requires IntConvertible(o)
  {
    if o.Some? then o.value.n else 0
  }

  /** The registry loop's state. `lastId` and `lastRegistryId` are the loop's
      locals `id_str`/`id_int` and `gameRegistryId`: a record that lacks the
      key reuses the previous record's value. `aborted` records that an
      exception ended the loop (caught at Functional.py:109). */
  datatype LoadState = LoadState(
    table: ModTable,
    index: IdIndex,
    lastId: Option<(string, nat)>,
    lastRegistryId: Option<string>,
    aborted: bool,
    log: seq<Warning>)

  const EmptyLoad: LoadState := LoadState(map[], map[], None, None, false, [])

  /** One iteration of the registry loop (Functional.py:43-108). */
  function LoadRecord(c: UuidCodec, st: LoadState, r: RawRecord): (st': LoadState)
    requires !st.aborted
  {
    if r.id.Some? && c.parse(r.id.value).None? then
      // UUID(id_str) raises ValueError
      st.(aborted := true, log := st.log + [DatabaseUnreadable])
    else
      var ident := if r.id.Some? then Some((r.id.value, c.parse(r.id.value).value)) else st.lastId;
      var registryId := if r.gameRegistryId.Some? then r.gameRegistryId else st.lastRegistryId;
      var log := st.log
        + (if r.id.None? then [MissingField("id")] else [])
        + (if r.gameRegistryId.None? then [MissingField("gameRegistryId")] else []);
      if !IntConvertible(r.steamId) || !IntConvertible(r.timeUpdated) || ident.None? || registryId.None? then
        // int(...) raises ValueError, or a never-assigned local raises NameError
        st.(aborted := true, log := log + [DatabaseUnreadable])
      else
        var key := ident.value.1;
        LoadState(
          st.table[key := Sanitise(r, key, registryId.value)],
          st.index[registryId.value := key][ident.value.0 := key],
          ident, registryId, false, log)
  }

  /** One iteration either raises and keeps what was loaded, or stores one
      entry under the current id and indexes it by the current names, stale or
      not; it only ever appends to the log. */
  lemma LoadRecordFootprint(c: UuidCodec, st: LoadState, r: RawRecord)
    requires !st.aborted
    ensures var st' := LoadRecord(c, st, r);
      && (st'.aborted ==> st'.table == st.table && st'.index == st.index)
      && (!st'.aborted ==>
            && st'.lastId.Some? && st'.lastRegistryId.Some?
            && st'.table.Keys == st.table.Keys + {st'.lastId.value.1}
            && st'.index.Keys == st.index.Keys + {st'.lastRegistryId.value, st'.lastId.value.0})
      && st.log <= st'.log
  {
  }

  /** The registry loop over the records in document order; it stops at the
      first exception and keeps what it loaded before. */
  function LoadRegistry(c: UuidCodec, rs: seq<RawRecord>): (st: LoadState)
    ensures IndexConsistent(st.table, st.index)
    ensures forall k :: k in st.table ==> !st.table[k].enabled
    ensures st.lastId.Some? ==> c.parse(st.lastId.value.0) == Some(st.lastId.value.1)
  {
    if rs == [] then EmptyLoad
    else
      var st := LoadRegistry(c, rs[..|rs| - 1]);
      if st.aborted then st else LoadRecord(c, st, rs[|rs| - 1])
  }

  /** Once the registry loop has aborted on a prefix, later records change
      nothing: the loop stops at the first exception. */
  lemma {:induction false} LoadRegistryAbortSticks(c: UuidCodec, rs: seq<RawRecord>, n: nat)
    requires n <= |rs| && LoadRegistry(c, rs[..n]).aborted
    ensures LoadRegistry(c, rs) == LoadRegistry(c, rs[..n])
    decreases |rs| - n
  {
    if n < |rs| {
      assert rs[..n + 1][..n] == rs[..n];
      LoadRegistryAbortSticks(c, rs, n + 1);
    } else {
      assert rs[..n] == rs;
    }
  }

  /** Every loaded key is a 128-bit UUID integer. */
  lemma {:induction false} LoadRegistryKeysInRange(c: UuidCodec, rs: seq<RawRecord>)
    requires Lawful(c)
    ensures forall k :: k in LoadRegistry(c, rs).table ==> k < UUID_LIMIT
  {
    if rs != [] {
      var front := rs[..|rs| - 1];
      LoadRegistryKeysInRange(c, front);
      var prev := LoadRegistry(c, front);
      if !prev.aborted && prev.lastId.Some? {
        assert c.parse(prev.lastId.value.0) == Some(prev.lastId.value.1);
      }
    }
  }

  /** Registries whose every record has a parseable id, a `gameRegistryId`
      and integer-convertible numeric fields. */
  ghost predicate WellFormedRegistry(c: UuidCodec, rs: seq<RawRecord>) {
    forall i :: 0 <= i < |rs| ==>
      && rs[i].id.Some? && c.parse(rs[i].id.value).Some?
      && rs[i].gameRegistryId.Some?
      && IntConvertible(rs[i].steamId) && IntConvertible(rs[i].timeUpdated)
  }

  /** No two records share a UUID or a `gameRegistryId`, and no
      `gameRegistryId` is also some record's id text. */
  ghost predicate DistinctKeys(c: UuidCodec, rs: seq<RawRecord>)
    requires WellFormedRegistry(c, rs)
  {
    && (forall i, j :: 0 <= i < j < |rs| ==>
          && c.parse(rs[i].id.value) != c.parse(rs[j].id.value)
          && rs[i].gameRegistryId.value != rs[j].gameRegistryId.value)
    && (forall i, j :: 0 <= i < |rs| && 0 <= j < |rs| ==> rs[i].gameRegistryId.value != rs[j].id.value)
  }

  function KeyOf(c: UuidCodec, r: RawRecord): nat
    requires r.id.Some? && c.parse(r.id.value).Some?
  {
    c.parse(r.id.value).value
  }

  /** One well-formed record: stored under its key, indexed by both names. */
  lemma LoadRecordWellFormed(c: UuidCodec, st: LoadState, r: RawRecord)
    requires !st.aborted
    requires r.id.Some? && c.parse(r.id.value).Some? && r.gameRegistryId.Some?
    requires IntConvertible(r.steamId) && IntConvertible(r.timeUpdated)
    ensures var key := KeyOf(c, r);
      LoadRecord(c, st, r) == LoadState(
        st.table[key := Sanitise(r, key, r.gameRegistryId.value)],
        st.index[r.gameRegistryId.value := key][r.id.value := key],
        Some((r.id.value, key)), r.gameRegistryId, false, st.log)
  {
  }

  /** The UUID integers of a well-formed registry's records. */
  ghost function KeySet(c: UuidCodec, rs: seq<RawRecord>): set<nat>
    requires WellFormedRegistry(c, rs)
  {
    set i | 0 <= i < |rs| :: KeyOf(c, rs[i])
  }

  /** The names a well-formed registry's records are indexed by: every
      `gameRegistryId` and every id text. */
  ghost function NameSet(c: UuidCodec, rs: seq<RawRecord>): set<string>
    requires WellFormedRegistry(c, rs)
  {
    (set i | 0 <= i < |rs| :: rs[i].gameRegistryId.value) + (set i | 0 <= i < |rs| :: rs[i].id.value)
  }

  lemma NameSetSnoc(c: UuidCodec, rs: seq<RawRecord>)
    requires rs != [] && WellFormedRegistry(c, rs)
    ensures WellFormedRegistry(c, rs[..|rs| - 1])
    ensures NameSet(c, rs) == NameSet(c, rs[..|rs| - 1]) + {rs[|rs| - 1].gameRegistryId.value, rs[|rs| - 1].id.value}
  {
    var n := |rs| - 1;
    forall i | 0 <= i < n ensures rs[..n][i] == rs[i] {}
  }

  /** Loading a well-formed registry indexes exactly the records' names, even
      where two records share a name. */
  lemma {:induction false} LoadRegistryIndexNames(c: UuidCodec, rs: seq<RawRecord>)
    requires WellFormedRegistry(c, rs)
    ensures var st := LoadRegistry(c, rs);
      !st.aborted && st.index.Keys == NameSet(c, rs)
  {
    if rs != [] {
      var front := rs[..|rs| - 1];
      NameSetSnoc(c, rs);
      LoadRegistryIndexNames(c, front);
      var prev := LoadRegistry(c, front);
      LoadRecordWellFormed(c, prev, rs[|rs| - 1]);
    }
  }

  ghost predicate AllIndexed(c: UuidCodec, st: LoadState, rs: seq<RawRecord>)
    requires WellFormedRegistry(c, rs)
  {
    forall i :: 0 <= i < |rs| ==> Indexed(c, st, rs[i])
  }

  /** After loading a well-formed registry with distinct keys, every record is
      in the table under its UUID integer, sanitised with the documented
      defaults and not enabled, and both its `gameRegistryId` and its id text
      resolve to that key; the table and the index hold nothing else. */
  lemma {:induction false} LoadRegistryIndexesEveryRecord(c: UuidCodec, rs: seq<RawRecord>)
    requires WellFormedRegistry(c, rs) && DistinctKeys(c, rs)
    ensures var st := LoadRegistry(c, rs);
      !st.aborted && st.table.Keys == KeySet(c, rs) && AllIndexed(c, st, rs)
    ensures LoadRegistry(c, rs).index.Keys == NameSet(c, rs)
  {
    LoadRegistryIndexNames(c, rs);
    if rs != [] {
      var front := rs[..|rs| - 1];
      assert WellFormedRegistry(c, front) && DistinctKeys(c, front) by {
        forall i | 0 <= i < |front| ensures front[i] == rs[i] {}
      }
      LoadRegistryIndexesEveryRecord(c, front);
      LoadRegistryIndexesStep(c, rs);
    }
  }

  lemma LoadRegistryIndexesStep(c: UuidCodec, rs: seq<RawRecord>)
    requires rs != [] && WellFormedRegistry(c, rs) && DistinctKeys(c, rs)
    requires WellFormedRegistry(c, rs[..|rs| - 1])
    requires var prev := LoadRegistry(c, rs[..|rs| - 1]);
      !prev.aborted && prev.table.Keys == KeySet(c, rs[..|rs| - 1]) && AllIndexed(c, prev, rs[..|rs| - 1])
    ensures var st := LoadRegistry(c, rs);
      !st.aborted && st.table.Keys == KeySet(c, rs) && AllIndexed(c, st, rs)
  {
    var prev := LoadRegistry(c, rs[..|rs| - 1]);
    LoadRecordWellFormed(c, prev, rs[|rs| - 1]);
    assert LoadRegistry(c, rs) == LoadRecord(c, prev, rs[|rs| - 1]);
    AllIndexedStep(c, prev, rs);
    KeySetSnoc(c, rs);
  }

  lemma AllIndexedStep(c: UuidCodec, prev: LoadState, rs: seq<RawRecord>)
    requires rs != [] && WellFormedRegistry(c, rs) && DistinctKeys(c, rs)
    requires WellFormedRegistry(c, rs[..|rs| - 1])
    requires !prev.aborted && AllIndexed(c, prev, rs[..|rs| - 1])
    ensures AllIndexed(c, LoadRecord(c, prev, rs[|rs| - 1]), rs)
  {
    var n := |rs| - 1;
    var front := rs[..n];
    var r := rs[n];
    var st := LoadRecord(c, prev, r);
    LoadRecordWellFormed(c, prev, r);
    forall i | 0 <= i < |rs| ensures Indexed(c, st, rs[i]) {
      if i < n {
        assert front[i] == rs[i];
        assert Indexed(c, prev, front[i]);
        IndexedPreserved(c, prev, r, rs[i]);
      }
    }
  }

  lemma KeySetSnoc(c: UuidCodec, rs: seq<RawRecord>)
    requires rs != [] && WellFormedRegistry(c, rs)
    ensures WellFormedRegistry(c, rs[..|rs| - 1])
    ensures KeySet(c, rs) == KeySet(c, rs[..|rs| - 1]) + {KeyOf(c, rs[|rs| - 1])}
  {
    var n := |rs| - 1;
    forall i | 0 <= i < n ensures rs[..n][i] == rs[i] {}
  }

  /** Loading a record with other keys and other names leaves `q` indexed. */
  lemma IndexedPreserved(c: UuidCodec, st: LoadState, r: RawRecord, q: RawRecord)
    requires !st.aborted
    requires r.id.Some? && c.parse(r.id.value).Some? && r.gameRegistryId.Some?
    requires IntConvertible(r.steamId) && IntConvertible(r.timeUpdated)
    requires q.id.Some? && c.parse(q.id.value).Some? && q.gameRegistryId.Some?
    requires IntConvertible(q.steamId) && IntConvertible(q.timeUpdated)
    requires Indexed(c, st, q)
    requires KeyOf(c, q) != KeyOf(c, r)
    requires q.gameRegistryId.value != r.gameRegistryId.value && q.gameRegistryId.value != r.id.value
    requires q.id.value != r.gameRegistryId.value
    ensures Indexed(c, LoadRecord(c, st, r), q)
  {
    LoadRecordWellFormed(c, st, r);
  }

  /** `r` is in the table under its key, sanitised, and both its names resolve to it. */
  ghost predicate Indexed(c: UuidCodec, st: LoadState, r: RawRecord)
    requires r.id.Some? && c.parse(r.id.value).Some? && r.gameRegistryId.Some?
    requires IntConvertible(r.steamId) && IntConvertible(r.timeUpdated)
  {
    var key := KeyOf(c, r);
    && key in st.table
    && st.table[key] == Sanitise(r, key, r.gameRegistryId.value)
    && r.gameRegistryId.value in st.index && st.index[r.gameRegistryId.value] == key
    && r.id.value in st.index && st.index[r.id.value] == key
  }

  /** True when some enabled-list entry resolves, through the index, to `k`. */
  ghost predicate Listed(index: IdIndex, names: seq<string>, k: nat) {
    exists i :: 0 <= i < |names| && names[i] in index && index[names[i]] == k
  }

  /** The enabled-list loop (Functional.py:128-132) over the list in order. */
  function EnableListed(table: ModTable, index: IdIndex, names: seq<string>): (r: ModTable)
    requires forall s :: s in index ==> index[s] in table
    ensures r.Keys == table.Keys
  {
    if names == [] then table
    else
      var t := EnableListed(table, index, names[..|names| - 1]);
      var s := names[|names| - 1];
      if s in index then t[index[s] := t[index[s]].(enabled := true)] else t
  }

  /** The log lines of the same loop: one per entry that does not resolve. */
  function UnresolvedWarnings(index: IdIndex, names: seq<string>): seq<Warning> {
    if names == [] then []
    else
      var s := names[|names| - 1];
      UnresolvedWarnings(index, names[..|names| - 1])
        + (if s in index then [] else [UnresolvedReference(s)])
  }

  /** Applying the enabled list sets `enabled` exactly on the entries some
      listed name resolves to, keeps every other flag and changes no other field. */
  lemma {:induction false} EnableListedExactly(table: ModTable, index: IdIndex, names: seq<string>)
    requires forall s :: s in index ==> index[s] in table
    ensures var r := EnableListed(table, index, names);
      forall k :: k in table ==>
        r[k] == table[k].(enabled := table[k].enabled || Listed(index, names, k))
  {
    if names != [] {
      var front := names[..|names| - 1];
      var s := names[|names| - 1];
      EnableListedExactly(table, index, front);
      var r := EnableListed(table, index, names);
      forall k | k in table
        ensures r[k] == table[k].(enabled := table[k].enabled || Listed(index, names, k))
      {
        if Listed(index, front, k) {
          var i :| 0 <= i < |front| && front[i] in index && index[front[i]] == k;
          assert names[i] == front[i];
        }
        if s in index && index[s] == k {
          assert names[|names| - 1] == s;
        }
        if Listed(index, names, k) {
          var i :| 0 <= i < |names| && names[i] in index && index[names[i]] == k;
          if i < |front| {
            assert front[i] == names[i];
          }
        }
      }
    }
  }
}
