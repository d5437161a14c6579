/** The three passes of `enable_import_list` (Functional.py:205-260) once the
    import applies: reset the flags, apply the imported ids in import order,
    and split the untouched ids of the current order into a pinned head and a
    tail. */
module ImportMerge {
  import opened Common
  import opened Registry

  /** The `remove` flag of Functional.py:229-232: whether an imported id is
      taken into the load order and enabled. */
  predicate Adopted(blacklist: set<nat>, includeIgnored: bool, k: nat) {
    k !in blacklist || includeIgnored
  }

  /** The reset pass on one entry (Functional.py:220-224): only the flag can
      change; a blacklisted entry keeps it unless blacklisted entries are
      included, every other entry is disabled. */
  function ResetEntry(m: ModRecord, k: nat, blacklist: set<nat>, includeIgnored: bool): (r: ModRecord)
    ensures r == m.(enabled := r.enabled)
    ensures r.enabled <==> m.enabled && k in blacklist && !includeIgnored
  {
    if k in blacklist then (if includeIgnored then m.(enabled := false) else m)
    else m.(enabled := false)
  }

  /** The reset pass over the whole table. */
  function ResetTable(table: ModTable, blacklist: set<nat>, includeIgnored: bool): (r: ModTable)
    ensures r.Keys == table.Keys
  {
    map k | k in table :: ResetEntry(table[k], k, blacklist, includeIgnored)
  }

  /** The state of the apply pass: `pool` is the working set `dict_keys`. */
  datatype MergeState = MergeState(pool: set<nat>, loadOrder: seq<nat>, table: ModTable, log: seq<Warning>)

  /** One iteration of the apply pass (Functional.py:227-241). Removing an id
      that is not in the pool raises KeyError before anything is appended;
      enabling an id the table lacks raises KeyError after the append. Both
      are caught and logged. */
  function ApplyOne(st: MergeState, k: nat, blacklist: set<nat>, includeIgnored: bool): (r: MergeState)
    ensures r.pool == st.pool - {k}
    ensures r.table.Keys == st.table.Keys
    ensures r.loadOrder == st.loadOrder || r.loadOrder == st.loadOrder + [k]
  {
    if k !in st.pool then st.(log := st.log + [NonUnique(k)])
    else
      var pool := st.pool - {k};
      if !Adopted(blacklist, includeIgnored, k) then st.(pool := pool)
      else if k in st.table then
        MergeState(pool, st.loadOrder + [k], st.table[k := st.table[k].(enabled := true)], st.log)
      else
        MergeState(pool, st.loadOrder + [k], st.table, st.log + [NonUnique(k)])
  }

  /** The apply pass over the imported ids in import order. */
  function ApplyImports(st: MergeState, keys: seq<nat>, blacklist: set<nat>, includeIgnored: bool): MergeState {
    if keys == [] then st
    else ApplyOne(ApplyImports(st, keys[..|keys| - 1], blacklist, includeIgnored), keys[|keys| - 1], blacklist, includeIgnored)
  }

  /** The imported ids the apply pass appends: those in `pool` and adopted, in import order. */
  function Selected(keys: seq<nat>, pool: set<nat>, blacklist: set<nat>, includeIgnored: bool): (r: seq<nat>)
    ensures forall k :: k in r <==> k in keys && k in pool && Adopted(blacklist, includeIgnored, k)
    ensures NoDups(keys) ==> NoDups(r)
  {
    if keys == [] then []
    else
      var front := Selected(keys[..|keys| - 1], pool, blacklist, includeIgnored);
      var k := keys[|keys| - 1];
      assert forall x :: x in keys <==> x in keys[..|keys| - 1] || x == k;
      if k in pool && Adopted(blacklist, includeIgnored, k) then front + [k] else front
  }

  /** The log lines of the apply pass, one per id that raised. */
  function ApplyWarnings(keys: seq<nat>, pool: set<nat>, tableKeys: set<nat>, blacklist: set<nat>, includeIgnored: bool)
    : seq<Warning>
  {
    if keys == [] then []
    else
      var k := keys[|keys| - 1];
      var raised := k !in pool || (Adopted(blacklist, includeIgnored, k) && k !in tableKeys);
      ApplyWarnings(keys[..|keys| - 1], pool, tableKeys, blacklist, includeIgnored) + (if raised then [NonUnique(k)] else [])
  }

  /** The apply pass in closed form, for the duplicate-free ids of an imported
      dict: it takes the imported ids out of the pool, appends the selected ones
      in import order and logs one line per id that raised. */
  lemma ApplyImportsClosedForm(st: MergeState, keys: seq<nat>, blacklist: set<nat>, includeIgnored: bool)
    requires NoDups(keys)
    ensures var r := ApplyImports(st, keys, blacklist, includeIgnored);
      && r.pool == st.pool - Elements(keys)
      && r.loadOrder == st.loadOrder + Selected(keys, st.pool, blacklist, includeIgnored)
      && r.log == st.log + ApplyWarnings(keys, st.pool, st.table.Keys, blacklist, includeIgnored)
  {
    ApplyImportsPool(st, keys, blacklist, includeIgnored);
    ApplyImportsOrder(st, keys, blacklist, includeIgnored);
    ApplyImportsLog(st, keys, blacklist, includeIgnored);
  }

  /** The apply pass appends the selected ids in import order. */
  lemma {:induction false} ApplyImportsOrder(st: MergeState, keys: seq<nat>, blacklist: set<nat>, includeIgnored: bool)
    requires NoDups(keys)
    ensures ApplyImports(st, keys, blacklist, includeIgnored).loadOrder
      == st.loadOrder + Selected(keys, st.pool, blacklist, includeIgnored)
  {
    if keys != [] {
      var front := keys[..|keys| - 1];
      assert NoDups(front);
      ApplyImportsOrder(st, front, blacklist, includeIgnored);
      ApplyImportsPool(st, front, blacklist, includeIgnored);
      assert keys[|keys| - 1] !in front;
    }
  }

  /** The apply pass logs one line per id that raised. */
  lemma {:induction false} ApplyImportsLog(st: MergeState, keys: seq<nat>, blacklist: set<nat>, includeIgnored: bool)
    requires NoDups(keys)
    ensures ApplyImports(st, keys, blacklist, includeIgnored).log
      == st.log + ApplyWarnings(keys, st.pool, st.table.Keys, blacklist, includeIgnored)
  {
    if keys != [] {
      var front := keys[..|keys| - 1];
      assert NoDups(front);
      ApplyImportsLog(st, front, blacklist, includeIgnored);
      ApplyImportsPool(st, front, blacklist, includeIgnored);
      ApplyImportsKeys(st, front, blacklist, includeIgnored);
      assert keys[|keys| - 1] !in front;
    }
  }

  /** The apply pass never adds or removes table entries. */
  lemma {:induction false} ApplyImportsKeys(st: MergeState, keys: seq<nat>, blacklist: set<nat>, includeIgnored: bool)
    ensures ApplyImports(st, keys, blacklist, includeIgnored).table.Keys == st.table.Keys
  {
    if keys != [] {
      ApplyImportsKeys(st, keys[..|keys| - 1], blacklist, includeIgnored);
    }
  }

  /** The table after the apply pass: it enables exactly the selected ids the
      table holds and changes nothing else. */
  lemma {:induction false} ApplyImportsTable(st: MergeState, keys: seq<nat>, blacklist: set<nat>, includeIgnored: bool)
    requires NoDups(keys)
    ensures var r := ApplyImports(st, keys, blacklist, includeIgnored);
      && r.table.Keys == st.table.Keys
      && (forall k :: k in st.table ==>
            r.table[k] == (if k in keys && k in st.pool && Adopted(blacklist, includeIgnored, k)
                           then st.table[k].(enabled := true) else st.table[k]))
  {
    if keys != [] {
      var front := keys[..|keys| - 1];
      var k := keys[|keys| - 1];
      assert NoDups(front);
      var mid := ApplyImports(st, front, blacklist, includeIgnored);
      ApplyImportsTable(st, front, blacklist, includeIgnored);
      ApplyImportsPool(st, front, blacklist, includeIgnored);
      ApplyOneTable(mid, k, blacklist, includeIgnored);
      assert k !in front;
      assert keys == front + [k];
    }
  }

  /** One step of the apply pass enables at most the id it visits. */
  lemma ApplyOneTable(st: MergeState, k: nat, blacklist: set<nat>, includeIgnored: bool)
    ensures var r := ApplyOne(st, k, blacklist, includeIgnored);
      && r.table.Keys == st.table.Keys
      && (forall j :: j in st.table ==>
            r.table[j] == (if j == k && k in st.pool && Adopted(blacklist, includeIgnored, k)
                           then st.table[j].(enabled := true) else st.table[j]))
  {
  }

  /** The pool after the apply pass has lost exactly the imported ids. */
  lemma {:induction false} ApplyImportsPool(st: MergeState, keys: seq<nat>, blacklist: set<nat>, includeIgnored: bool)
    ensures ApplyImports(st, keys, blacklist, includeIgnored).pool == st.pool - Elements(keys)
  {
    if keys != [] {
      var front := keys[..|keys| - 1];
      var k := keys[|keys| - 1];
      ApplyImportsPool(st, front, blacklist, includeIgnored);
      assert forall x :: x in keys <==> x in front || x == k;
      assert Elements(keys) == Elements(front) + {k};
    }
  }

  /** The flags after the reset and apply passes: every entry of `before`
      differs in `after` only in its flag, which is set exactly for the
      selected imported ids of the current order and for the enabled
      blacklisted entries that are kept. */
  ghost predicate ImportedFlags(
    before: ModTable, after: ModTable, imports: seq<nat>, orderKeys: set<nat>, blacklist: set<nat>, includeIgnored: bool)
  {
    && after.Keys == before.Keys
    && forall k :: k in before ==>
         after[k] == before[k].(enabled :=
           (k in imports && k in orderKeys && Adopted(blacklist, includeIgnored, k))
           || (k in blacklist && !includeIgnored && before[k].enabled))
  }

  /** The reset pass followed by the apply pass sets the flags as above. */
  lemma ImportFlags(
    table: ModTable, orderKeys: set<nat>, imports: seq<nat>, blacklist: set<nat>, includeIgnored: bool, log: seq<Warning>)
    requires NoDups(imports)
    ensures ImportedFlags(table,
      ApplyImports(MergeState(orderKeys, [], ResetTable(table, blacklist, includeIgnored), log), imports, blacklist, includeIgnored).table,
      imports, orderKeys, blacklist, includeIgnored)
  {
    var reset := ResetTable(table, blacklist, includeIgnored);
    ApplyImportsTable(MergeState(orderKeys, [], reset, log), imports, blacklist, includeIgnored);
  }

  /** `set_a.issubset(set_b) or load_forced` at Functional.py:212. */
  predicate Applicable(importKeys: set<nat>, orderKeys: set<nat>, loadForced: bool) {
    importKeys <= orderKeys || loadForced
  }

  /** The tail pass (Functional.py:242-246): the untouched ids of the current
      order, enabled ones to the head and disabled ones to the tail. The loop
      visits the set in hash order, which is left open: the split is stated by
      membership. An id the table lacks raises an uncaught KeyError. */
  method SplitTail(pool: set<nat>, table: ModTable) returns (r: Result<(seq<nat>, seq<nat>), Crash>)
    ensures r.Success? <==> pool <= table.Keys
    ensures r.Failure? ==> r.error.UnknownMod? && r.error.id in pool && r.error.id !in table
    ensures r.Success? ==>
      var (pinned, unpinned) := r.value;
      && NoDups(pinned) && NoDups(unpinned)
      && (forall k :: k in pinned <==> k in pool && k in table && table[k].enabled)
      && (forall k :: k in unpinned <==> k in pool && k in table && !table[k].enabled)
  {
    var rest := pool;
    var pinned: seq<nat> := [];
    var unpinned: seq<nat> := [];
    while rest != {}
      invariant rest <= pool
      invariant pool - rest <= table.Keys
      invariant NoDups(pinned) && NoDups(unpinned)
      invariant forall k :: k in pinned <==> k in pool - rest && table[k].enabled
      invariant forall k :: k in unpinned <==> k in pool - rest && !table[k].enabled
      decreases rest
    {
      var k :| k in rest;
      if k !in table {
        return Failure(UnknownMod(k));
      }
      if table[k].enabled {
        pinned := pinned + [k];
      } else {
        unpinned := unpinned + [k];
      }
      rest := rest - {k};
    }
    r := Success((pinned, unpinned));
  }

  /** The return at Functional.py:248-254: its three branches all amount to
      the pinned ids followed by the load order. */
  function MergedOrder(pinned: seq<nat>, loadOrder: seq<nat>): (r: seq<nat>)
    ensures r == pinned + loadOrder
  {
    if pinned != [] && loadOrder != [] then pinned + loadOrder
    else if loadOrder != [] then loadOrder
    else pinned
  }

  /** The merged order has no duplicates, holds exactly the untouched ids of the
      current order and the selected imported ids that were in it, and leaves
      out every imported blacklisted id when blacklisted ids are not included. */
  lemma MergedOrderShape(
    orderKeys: set<nat>, imports: seq<nat>, blacklist: set<nat>, includeIgnored: bool,
    pinned: seq<nat>, unpinned: seq<nat>)
    requires NoDups(imports) && NoDups(pinned) && NoDups(unpinned)
    requires forall k :: k in pinned ==> k in orderKeys && k !in imports && k !in unpinned
    requires forall k :: k in unpinned ==> k in orderKeys && k !in imports
    requires forall k :: k in orderKeys && k !in imports ==> k in pinned || k in unpinned
    ensures var out := MergedOrder(pinned, Selected(imports, orderKeys, blacklist, includeIgnored) + unpinned);
      && NoDups(out)
      && (forall k :: k in out <==>
            k in orderKeys && (k !in imports || Adopted(blacklist, includeIgnored, k)))
      && (!includeIgnored ==> forall k :: k in imports && k in blacklist ==> k !in out)
  {
    var sel := Selected(imports, orderKeys, blacklist, includeIgnored);
    var out := pinned + sel + unpinned;
    assert MergedOrder(pinned, sel + unpinned) == out;
    forall i, j | 0 <= i < j < |out| ensures out[i] != out[j] {
      if j < |pinned| {
      } else if i < |pinned| {
        assert out[i] in pinned;
      } else if j < |pinned| + |sel| {
        assert out[i] == sel[i - |pinned|] && out[j] == sel[j - |pinned|];
      } else if i < |pinned| + |sel| {
        assert out[i] in sel && out[j] in unpinned;
      } else {
        assert out[i] == unpinned[i - |pinned| - |sel|] && out[j] == unpinned[j - |pinned| - |sel|];
      }
    }
  }
}
