/** The list building of `write_gui_order` and `write_mod_enabled_order`
    (Functional.py:287-326). Both drain a working set of the table's keys along
    the given order, skipping ids that are not (or no longer) in the set, and
    then recover the "leaked" keys the order did not mention. */
module OrderWriters {
  import opened Common
  import opened Registry

  /** The working state of a writer's first loop: `pool` is `dict_keys`. */
  datatype Drain = Drain(pool: set<nat>, consumed: seq<nat>, log: seq<Warning>)

  /** One "Leaked element" log line per id of `ids`, in order. */
  function Leaks(ids: seq<nat>): seq<Warning> {
    if ids == [] then [] else Leaks(ids[..|ids| - 1]) + [LeakedElement(ids[|ids| - 1])]
  }

  lemma LeaksSnoc(ids: seq<nat>, k: nat)
    ensures Leaks(ids + [k]) == Leaks(ids) + [LeakedElement(k)]
  {
    assert (ids + [k])[..|ids|] == ids;
  }

  /** One iteration: `dict_keys.remove(int_id)` raises KeyError for an id
      already consumed or unknown, which is caught and logged. */
  function ConsumeOne(st: Drain, k: nat): (r: Drain)
    ensures r.pool == st.pool - {k}
  {
    if k in st.pool then Drain(st.pool - {k}, st.consumed + [k], st.log)
    else st.(log := st.log + [NonUnique(k)])
  }

  /** The first loop over the whole order, starting from `pool`. */
  function Consume(pool: set<nat>, order: seq<nat>): Drain {
    if order == [] then Drain(pool, [], [])
    else ConsumeOne(Consume(pool, order[..|order| - 1]), order[|order| - 1])
  }

  lemma ConsumeStep(pool: set<nat>, order: seq<nat>, i: nat)
    requires i < |order|
    ensures Consume(pool, order[..i + 1]) == ConsumeOne(Consume(pool, order[..i]), order[i])
  {
    assert order[..i + 1][..i] == order[..i];
  }

  /** The first loop consumes each id of `pool` that `order` names exactly once,
      in the order of its first mention; every other mention is one log line. */
  lemma {:induction false} ConsumeCorrect(pool: set<nat>, order: seq<nat>)
    ensures var d := Consume(pool, order);
      && d.pool == pool - Elements(order)
      && NoDups(d.consumed)
      && (forall k :: k in d.consumed <==> k in pool && k in order)
      && FollowsOrder(d.consumed, order)
      && |d.consumed| + |d.log| == |order|
      && (forall i :: 0 <= i < |d.log| ==> d.log[i].NonUnique? && d.log[i].id in order)
  {
    if order != [] {
      var front := order[..|order| - 1];
      var k := order[|order| - 1];
      ConsumeCorrect(pool, front);
      var prev := Consume(pool, front);
      assert forall x :: x in order <==> x in front || x == k;
      assert Elements(order) == Elements(front) + {k};
      if k in prev.pool {
        assert k !in front;
        FollowsOrderAppend(prev.consumed, front, k);
      } else {
        FollowsOrderExtend(prev.consumed, front, k);
      }
      SplitLast(order);
    }
  }

  /** The ids of `ids` whose table entry is enabled, in their order. */
  function EnabledOf(ids: seq<nat>, table: ModTable): (r: seq<nat>)
    ensures forall k :: k in r <==> k in ids && k in table && table[k].enabled
    ensures NoDups(ids) ==> NoDups(r)
  {
    if ids == [] then []
    else
      var front := EnabledOf(ids[..|ids| - 1], table);
      var k := ids[|ids| - 1];
      assert forall x :: x in ids <==> x in ids[..|ids| - 1] || x == k;
      if k in table && table[k].enabled then front + [k] else front
  }

  /** The `gameRegistryId` of each id of `ids`, in order. */
  function RegistryIds(ids: seq<nat>, table: ModTable): seq<string>
    requires forall k :: k in ids ==> k in table
  {
    if ids == [] then [] else RegistryIds(ids[..|ids| - 1], table) + [table[ids[|ids| - 1]].gameRegistryId]
  }

  lemma {:induction false} RegistryIdsAt(ids: seq<nat>, table: ModTable)
    requires forall k :: k in ids ==> k in table
    ensures |RegistryIds(ids, table)| == |ids|
    ensures forall j :: 0 <= j < |ids| ==> RegistryIds(ids, table)[j] == table[ids[j]].gameRegistryId
  {
    if ids != [] {
      var front := ids[..|ids| - 1];
      assert forall k :: k in front ==> k in ids;
      RegistryIdsAt(front, table);
    }
  }

  lemma RegistryIdsSnoc(ids: seq<nat>, table: ModTable, k: nat)
    requires forall x :: x in ids ==> x in table
    requires k in table
    ensures forall x :: x in ids + [k] ==> x in table
    ensures RegistryIds(ids + [k], table) == RegistryIds(ids, table) + [table[k].gameRegistryId]
  {
    assert (ids + [k])[..|ids|] == ids;
  }

  lemma EnabledOfSnoc(ids: seq<nat>, table: ModTable, k: nat)
    ensures EnabledOf(ids + [k], table) == EnabledOf(ids, table) + (if k in table && table[k].enabled then [k] else [])
  {
    assert (ids + [k])[..|ids|] == ids;
  }

  /** `write_gui_order`'s list: the canonical text of every table key exactly
      once, first the keys `listOrder` names, in the order of their first
      mention, then the leaked keys, each with one log line. The leaked keys
      come in hash order, which is left open. `ids` names the key behind each
      string. */
  method BuildGuiOrder(c: UuidCodec, table: ModTable, listOrder: seq<nat>)
    returns (out: seq<string>, log: seq<Warning>, ghost ids: seq<nat>)
    ensures NoDups(ids) && (forall k :: k in ids <==> k in table)
    ensures |out| == |ids| && forall i :: 0 <= i < |ids| ==> out[i] == c.format(table[ids[i]].id)
    ensures var d := Consume(table.Keys, listOrder);
      && |d.consumed| <= |ids| && ids[..|d.consumed|] == d.consumed
      && log == d.log + Leaks(ids[|d.consumed|..])
  {
    var pool;
    pool, out, log, ids := ConsumeGui(c, table, listOrder);
    ConsumeCorrect(table.Keys, listOrder);
    out, log, ids := AppendLeaked(c, table, pool, out, log, ids);
  }

  /** The first loop of `write_gui_order` (Functional.py:291-296): the text of
      the consumed ids, and the keys left over. */
  method ConsumeGui(c: UuidCodec, table: ModTable, listOrder: seq<nat>)
    returns (pool: set<nat>, out: seq<string>, log: seq<Warning>, ghost ids: seq<nat>)
    ensures Consume(table.Keys, listOrder) == Drain(pool, ids, log)
    ensures pool <= table.Keys && forall k :: k in ids ==> k in table
    ensures |out| == |ids| && forall j :: 0 <= j < |ids| ==> out[j] == c.format(table[ids[j]].id)
  {
    pool := table.Keys;
    out, log, ids := [], [], [];
    var i := 0;
    while i < |listOrder|
      invariant 0 <= i <= |listOrder|
      invariant Consume(table.Keys, listOrder[..i]) == Drain(pool, ids, log)
      invariant pool <= table.Keys && forall k :: k in ids ==> k in table
      invariant |out| == |ids| && forall j :: 0 <= j < |ids| ==> out[j] == c.format(table[ids[j]].id)
    {
      var k := listOrder[i];
      ConsumeStep(table.Keys, listOrder, i);
      if k in pool {
        pool := pool - {k};
        out := out + [c.format(table[k].id)];
        ids := ids + [k];
      } else {
        log := log + [NonUnique(k)];
      }
      i := i + 1;
    }
    assert listOrder[..i] == listOrder;
  }

  /** The leaked loop of `write_gui_order` (Functional.py:298-300): every key
      left in `pool`, in hash order, each with one log line. */
  method AppendLeaked(c: UuidCodec, table: ModTable, pool: set<nat>, out0: seq<string>, log0: seq<Warning>, ghost ids0: seq<nat>)
    returns (out: seq<string>, log: seq<Warning>, ghost ids: seq<nat>)
    requires pool <= table.Keys
    requires NoDups(ids0) && forall k :: k in ids0 ==> k in table && k !in pool
    requires forall k :: k in table ==> k in ids0 || k in pool
    requires |out0| == |ids0| && forall j :: 0 <= j < |ids0| ==> out0[j] == c.format(table[ids0[j]].id)
    ensures |ids0| <= |ids| && ids[..|ids0|] == ids0
    ensures NoDups(ids) && forall k :: k in ids <==> k in table
    ensures |out| == |ids| && forall j :: 0 <= j < |ids| ==> out[j] == c.format(table[ids[j]].id)
    ensures log == log0 + Leaks(ids[|ids0|..])
  {
    out, ids := out0, ids0;
    var leaks: seq<Warning> := [];
    ghost var leaked: seq<nat> := [];
    var rest := pool;
    while rest != {}
      invariant rest <= pool
      invariant ids == ids0 + leaked
      invariant NoDups(ids) && forall k :: k in ids ==> k in table && k !in rest
      invariant forall k :: k in table ==> k in ids || k in rest
      invariant |out| == |ids| && forall j :: 0 <= j < |ids| ==> out[j] == c.format(table[ids[j]].id)
      invariant leaks == Leaks(leaked)
      decreases rest
    {
      var k :| k in rest;
      LeaksSnoc(leaked, k);
      NoDupsSnoc(ids, k);
      leaks := leaks + [LeakedElement(k)];
      out := out + [c.format(table[k].id)];
      ids := ids + [k];
      leaked := leaked + [k];
      rest := rest - {k};
    }
    assert ids[|ids0|..] == leaked;
    log := log0 + leaks;
  }

  /** The text of distinct keys of a consistent table is distinct, so the GUI
      order lists every key's text exactly once. */
  lemma FormattedDistinct(c: UuidCodec, table: ModTable, ids: seq<nat>, out: seq<string>)
    requires Lawful(c)
    requires forall k :: k in table ==> table[k].id == k && k < UUID_LIMIT
    requires NoDups(ids) && forall k :: k in ids ==> k in table
    requires |out| == |ids| && forall i :: 0 <= i < |ids| ==> out[i] == c.format(table[ids[i]].id)
    ensures NoDups(out)
  {
    forall i, j | 0 <= i < j < |out| ensures out[i] != out[j] {
      FormatInjective(c, ids[i], ids[j]);
    }
  }

  /** `write_mod_enabled_order`'s list with the leaked branch appending as
      intended: the `gameRegistryId` of every enabled entry exactly once, first
      the enabled ids `listOrder` names, in the order of their first mention,
      then the enabled leaked ids, each with one log line. */
  method BuildEnabledOrder(table: ModTable, listOrder: seq<nat>)
    returns (out: seq<string>, log: seq<Warning>, ghost ids: seq<nat>)
    ensures NoDups(ids) && (forall k :: k in ids <==> k in table && table[k].enabled)
    ensures |out| == |ids| && forall i :: 0 <= i < |ids| ==> out[i] == table[ids[i]].gameRegistryId
    ensures var d := Consume(table.Keys, listOrder);
      var e := EnabledOf(d.consumed, table);
      && |e| <= |ids| && ids[..|e|] == e
      && log == d.log + Leaks(ids[|e|..])
  {
    var pool;
    pool, out, log, ids := ConsumeEnabled(table, listOrder);
    ConsumeCorrect(table.Keys, listOrder);
    out, log, ids := AppendEnabledLeaked(table, pool, out, log, ids);
  }

  /** The first loop of `write_mod_enabled_order` (Functional.py:311-317): the
      enabled ids among those consumed, and the keys left over. */
  method ConsumeEnabled(table: ModTable, listOrder: seq<nat>)
    returns (pool: set<nat>, out: seq<string>, log: seq<Warning>, ghost ids: seq<nat>)
    ensures var d := Consume(table.Keys, listOrder);
      && pool == d.pool && log == d.log && ids == EnabledOf(d.consumed, table)
    ensures |out| == |ids| && forall j :: 0 <= j < |ids| ==> out[j] == table[ids[j]].gameRegistryId
  {
    pool := table.Keys;
    out, log, ids := [], [], [];
    ghost var consumed: seq<nat> := [];
    var i := 0;
    while i < |listOrder|
      invariant 0 <= i <= |listOrder|
      invariant Consume(table.Keys, listOrder[..i]) == Drain(pool, consumed, log)
      invariant pool <= table.Keys
      invariant ids == EnabledOf(consumed, table)
      invariant forall k :: k in ids ==> k in table
      invariant out == RegistryIds(ids, table)
    {
      var k := listOrder[i];
      ConsumeStep(table.Keys, listOrder, i);
      if k in pool {
        pool := pool - {k};
        EnabledOfSnoc(consumed, table, k);
        if table[k].enabled {
          RegistryIdsSnoc(ids, table, k);
          out := out + [table[k].gameRegistryId];
          ids := ids + [k];
        }
        consumed := consumed + [k];
      } else {
        log := log + [NonUnique(k)];
      }
      i := i + 1;
    }
    assert listOrder[..i] == listOrder;
    RegistryIdsAt(ids, table);
  }

  /** The leaked loop of `write_mod_enabled_order` (Functional.py:318-321), with
      the intended append: the enabled keys left in `pool`, in hash order. */
  method AppendEnabledLeaked(table: ModTable, pool: set<nat>, out0: seq<string>, log0: seq<Warning>, ghost ids0: seq<nat>)
    returns (out: seq<string>, log: seq<Warning>, ghost ids: seq<nat>)
    requires pool <= table.Keys
    requires NoDups(ids0) && forall k :: k in ids0 ==> k in table && table[k].enabled && k !in pool
    requires |out0| == |ids0| && forall j :: 0 <= j < |ids0| ==> out0[j] == table[ids0[j]].gameRegistryId
    ensures |ids0| <= |ids| && ids[..|ids0|] == ids0
    ensures NoDups(ids) && forall k :: k in ids <==> k in ids0 || (k in pool && table[k].enabled)
    ensures |out| == |ids| && forall j :: 0 <= j < |ids| ==> out[j] == table[ids[j]].gameRegistryId
    ensures log == log0 + Leaks(ids[|ids0|..])
  {
    out, ids := out0, ids0;
    var leaks: seq<Warning> := [];
    ghost var leaked: seq<nat> := [];
    var rest := pool;
    while rest != {}
      invariant rest <= pool
      invariant ids == ids0 + leaked
      invariant NoDups(ids) && forall k :: k in ids ==> k in table && table[k].enabled && k !in rest
      invariant forall k :: k in ids <==> k in ids0 || (k in pool - rest && table[k].enabled)
      invariant |out| == |ids| && forall j :: 0 <= j < |ids| ==> out[j] == table[ids[j]].gameRegistryId
      invariant leaks == Leaks(leaked)
      decreases rest
    {
      var k :| k in rest;
      if table[k].enabled {
        LeaksSnoc(leaked, k);
        NoDupsSnoc(ids, k);
        leaks := leaks + [LeakedElement(k)];
        out := out + [table[k].gameRegistryId];
        ids := ids + [k];
        leaked := leaked + [k];
      }
      rest := rest - {k};
    }
    assert ids[|ids0|..] == leaked;
    log := log0 + leaks;
  }

  /** The leaked loop of `write_mod_enabled_order` as written
      (Functional.py:318-321): the log line of an enabled leaked entry formats
      `mod_id`, a name bound nowhere in its scope, so the first enabled key the
      loop visits raises NameError, which nothing catches. Disabled keys are
      passed over; when none is enabled the list is left as it was. */
  method AppendEnabledLeakedAsWritten(table: ModTable, pool: set<nat>, out0: seq<string>)
    returns (r: Result<seq<string>, Crash>)
    requires pool <= table.Keys
    ensures r.Failure? <==> exists k :: k in pool && table[k].enabled
    ensures r.Failure? ==> r.error == UndefinedName
    ensures r.Success? ==> r.value == out0
  {
    var rest := pool;
    while rest != {}
      invariant rest <= pool
      invariant forall k :: k in pool - rest ==> !table[k].enabled
      decreases rest
    {
      var k :| k in rest;
      if table[k].enabled {
        return Failure(UndefinedName);
      }
      rest := rest - {k};
    }
    r := Success(out0);
  }

  /** `write_mod_enabled_order`'s list building as written: whatever the hash
      order, it stops with NameError exactly when some enabled key is missing
      from `listOrder`; otherwise the list is the registry ids of the enabled
      ids the first loop consumed. */
  method LeakedEnabledAsWritten(table: ModTable, listOrder: seq<nat>)
    returns (r: Result<seq<string>, Crash>, log: seq<Warning>)
    ensures r.Failure? <==> exists k :: k in table && table[k].enabled && k !in listOrder
    ensures r.Failure? ==> r.error == UndefinedName
    ensures var d := Consume(table.Keys, listOrder);
      var e := EnabledOf(d.consumed, table);
      && log == d.log
      && (r.Success? ==> |r.value| == |e| && forall j :: 0 <= j < |e| ==> r.value[j] == table[e[j]].gameRegistryId)
  {
    var pool, out;
    ghost var ids;
    pool, out, log, ids := ConsumeEnabled(table, listOrder);
    ConsumeCorrect(table.Keys, listOrder);
    assert forall k :: k in pool <==> k in table && k !in listOrder;
    r := AppendEnabledLeakedAsWritten(table, pool, out);
  }

  /** A table with one enabled mod and an empty order: the as-written writer
      stops with NameError, where the intended one lists that mod's registry id. */
  method EnabledLeakCounterexample() returns (asWritten: Result<seq<string>, Crash>, intended: seq<string>)
    ensures asWritten == Failure(UndefinedName)
    ensures intended == ["mod/one.mod"]
  {
    var m := ModRecord("Mod", true, "mod/one.mod", 1, "0.0.0", "none", "undefined", 0, [""], "", "", 0);
    var table := map[1 := m];
    assert 1 in table && table[1].enabled && 1 !in [];
    var log;
    asWritten, log := LeakedEnabledAsWritten(table, []);
    ghost var ids;
    intended, log, ids := BuildEnabledOrder(table, []);
    assert 1 in ids;
    assert |ids| == 1;
  }
}
