/** The standalone script Sort_Mod_Order.py: build a display-name lookup from
    the registry, then sort the GUI order (`modsOrder`) and the enabled list
    (`enabled_mods`) by looked-up name, non-increasing and stable, and rewrite
    the non-empty ones. Documents come in already parsed; the rewritten lists
    come out in a `ScriptOutcome`. */
module SortModOrder {
  import opened Common
  import opened Registry
  import opened NameSort

  /** `name_lookup`: registry id and id text to display name. */
  type NameLookup = map<string, string>

  /** Whether a registry record puts `s` into the lookup. */
  predicate Mentions(r: RawRecord, s: string) {
    r.gameRegistryId == Some(s) || r.id == Some(s)
  }

  /** One iteration of the lookup loop (Sort_Mod_Order.py:16-22), with its
      KeyError and ValueError exits in the order the statements raise them. */
  function AddRecord(c: UuidCodec, lookup: NameLookup, r: RawRecord): (res: Result<NameLookup, Crash>)
    ensures res.Failure? ==> res.error.MissingKey? || res.error.MalformedId?
  {
    if r.gameRegistryId.None? then Failure(MissingKey("gameRegistryId"))
    else if r.id.None? then Failure(MissingKey("id"))
    else if c.parse(r.id.value).None? then Failure(MalformedId(r.id.value))
    else if r.displayName.None? then Failure(MissingKey("displayName"))
    else Success(lookup[r.gameRegistryId.value := r.displayName.value][r.id.value := r.displayName.value])
  }

  /** The lookup loop over the registry's records in document order. */
  function LookupOf(c: UuidCodec, rs: seq<RawRecord>): (r: Result<NameLookup, Crash>)
    ensures r.Failure? ==> r.error.MissingKey? || r.error.MalformedId?
  {
    if rs == [] then Success(map[])
    else
      match LookupOf(c, rs[..|rs| - 1])
      case Failure(e) => Failure(e)
      case Success(lookup) => AddRecord(c, lookup, rs[|rs| - 1])
  }

  /** The record carries every key the loop reads, and a valid id. */
  predicate Complete(c: UuidCodec, r: RawRecord) {
    r.gameRegistryId.Some? && r.id.Some? && c.parse(r.id.value).Some? && r.displayName.Some?
  }

  /** The display name of the last record that mentions `s`. */
  function LastName(rs: seq<RawRecord>, s: string): Option<string> {
    if rs == [] then None
    else if Mentions(rs[|rs| - 1], s) then rs[|rs| - 1].displayName
    else LastName(rs[..|rs| - 1], s)
  }

  /** The loop succeeds exactly when every record is complete; then the lookup
      holds exactly the registry ids and id texts of the records, each mapped to
      the display name of the last record that mentions it. */
  lemma {:induction false} LookupOfCorrect(c: UuidCodec, rs: seq<RawRecord>)
    ensures var r := LookupOf(c, rs);
      && (r.Success? <==> forall i :: 0 <= i < |rs| ==> Complete(c, rs[i]))
      && (r.Success? ==> forall s ::
            && (s in r.value <==> exists i :: 0 <= i < |rs| && Mentions(rs[i], s))
            && (s in r.value ==> LastName(rs, s) == Some(r.value[s])))
  {
    if rs != [] {
      var front := rs[..|rs| - 1];
      var last := rs[|rs| - 1];
      LookupOfCorrect(c, front);
      assert forall i :: 0 <= i < |front| ==> front[i] == rs[i];
      var r := LookupOf(c, rs);
      if r.Success? {
        forall s ensures (s in r.value <==> exists i :: 0 <= i < |rs| && Mentions(rs[i], s)) {
          if s in r.value && !Mentions(last, s) {
            var i :| 0 <= i < |front| && Mentions(front[i], s);
            assert Mentions(rs[i], s);
          }
          if exists i :: 0 <= i < |rs| && Mentions(rs[i], s) {
            var i :| 0 <= i < |rs| && Mentions(rs[i], s);
            if i < |front| {
              assert Mentions(front[i], s);
            }
          }
        }
      } else if LookupOf(c, front).Success? {
        assert !Complete(c, rs[|rs| - 1]);
      }
    }
  }

  /** Where no later record mentions a record's registry id or id text, the
      lookup maps both to that record's display name. */
  lemma LookupNamesRecord(c: UuidCodec, rs: seq<RawRecord>, i: nat)
    requires LookupOf(c, rs).Success?
    requires i < |rs|
    requires forall j, s :: i < j < |rs| && Mentions(rs[i], s) ==> !Mentions(rs[j], s)
    ensures var lookup := LookupOf(c, rs).value;
      forall s :: Mentions(rs[i], s) ==> s in lookup && Some(lookup[s]) == rs[i].displayName
  {
    LookupOfCorrect(c, rs);
    forall s | Mentions(rs[i], s) ensures LastName(rs, s) == rs[i].displayName {
      LastNameAfter(rs, i, s);
    }
  }

  lemma {:induction false} LastNameAfter(rs: seq<RawRecord>, i: nat, s: string)
    requires i < |rs| && Mentions(rs[i], s)
    requires forall j :: i < j < |rs| ==> !Mentions(rs[j], s)
    ensures LastName(rs, s) == rs[i].displayName
  {
    if i < |rs| - 1 {
      var front := rs[..|rs| - 1];
      assert front[i] == rs[i];
      LastNameAfter(front, i, s);
    }
  }

  /** `name_lookup` as the script fills it. */
  method BuildNameLookup(c: UuidCodec, rs: seq<RawRecord>) returns (r: Result<NameLookup, Crash>)
    ensures r == LookupOf(c, rs)
  {
    var lookup: NameLookup := map[];
    var i := 0;
    while i < |rs|
      invariant 0 <= i <= |rs|
      invariant LookupOf(c, rs[..i]) == Success(lookup)
    {
      assert rs[..i + 1][..i] == rs[..i];
      var rec := rs[i];
      if rec.gameRegistryId.None? {
        LookupFailureSticks(c, rs, i + 1);
        return Failure(MissingKey("gameRegistryId"));
      }
      var key := rec.gameRegistryId.value;
      if rec.id.None? {
        LookupFailureSticks(c, rs, i + 1);
        return Failure(MissingKey("id"));
      }
      var modId := rec.id.value;
      if c.parse(modId).None? {
        LookupFailureSticks(c, rs, i + 1);
        return Failure(MalformedId(modId));
      }
      if rec.displayName.None? {
        LookupFailureSticks(c, rs, i + 1);
        return Failure(MissingKey("displayName"));
      }
      var value := rec.displayName.value;
      lookup := lookup[key := value];
      lookup := lookup[modId := value];
      i := i + 1;
    }
    assert rs[..i] == rs;
    r := Success(lookup);
  }

  /** Once the lookup loop has raised on a prefix of the registry, the rest
      changes nothing: the early return of `BuildNameLookup`. */
  lemma {:induction false} LookupFailureSticks(c: UuidCodec, rs: seq<RawRecord>, n: nat)
    requires n <= |rs| && LookupOf(c, rs[..n]).Failure?
    ensures LookupOf(c, rs) == LookupOf(c, rs[..n])
    decreases |rs| - n
  {
    if n < |rs| {
      assert rs[..n + 1][..n] == rs[..n];
      LookupFailureSticks(c, rs, n + 1);
    } else {
      assert rs[..n] == rs;
    }
  }

  /** The decorate loops (Sort_Mod_Order.py:34-35, 56-57): pair each entry
      with its looked-up name; the first entry without one raises KeyError. */
  function DecorateNames(lookup: NameLookup, names: seq<string>): (r: Result<seq<(string, string)>, Crash>)
    ensures r.Success? <==> forall i :: 0 <= i < |names| ==> names[i] in lookup
    ensures r.Success? ==> Decorated(r.value, lookup) && Undecorate(r.value) == names
    ensures r.Failure? ==> r.error.UnknownName? && r.error.name in names && r.error.name !in lookup
  {
    if names == [] then Success([])
    else
      var front := names[..|names| - 1];
      var s := names[|names| - 1];
      assert forall i :: 0 <= i < |front| ==> front[i] == names[i];
      match DecorateNames(lookup, front)
      case Failure(e) => Failure(e)
      case Success(d) =>
        if s !in lookup then Failure(UnknownName(s))
        else
          UndecorateAppend(d, [(lookup[s], s)]);
          assert names == front + [s];
          Success(d + [(lookup[s], s)])
  }

  method Decorate(lookup: NameLookup, names: seq<string>) returns (r: Result<seq<(string, string)>, Crash>)
    ensures r == DecorateNames(lookup, names)
  {
    var pairs: seq<(string, string)> := [];
    var i := 0;
    while i < |names|
      invariant 0 <= i <= |names|
      invariant DecorateNames(lookup, names[..i]) == Success(pairs)
    {
      assert names[..i + 1][..i] == names[..i];
      if names[i] !in lookup {
        DecorateFailureSticks(lookup, names, i + 1);
        return Failure(UnknownName(names[i]));
      }
      pairs := pairs + [(lookup[names[i]], names[i])];
      i := i + 1;
    }
    assert names[..i] == names;
    r := Success(pairs);
  }

  /** Once a decorate loop has met an unknown name on a prefix, the rest of
      the list changes nothing: the early return of `Decorate`. */
  lemma {:induction false} DecorateFailureSticks(lookup: NameLookup, names: seq<string>, n: nat)
    requires n <= |names| && DecorateNames(lookup, names[..n]).Failure?
    ensures DecorateNames(lookup, names) == DecorateNames(lookup, names[..n])
    decreases |names| - n
  {
    if n < |names| {
      assert names[..n + 1][..n] == names[..n];
      DecorateFailureSticks(lookup, names, n + 1);
    } else {
      assert names[..n] == names;
    }
  }

  /** Decorate, sort descending and undecorate one list. */
  function SortByName(lookup: NameLookup, names: seq<string>): (r: Result<seq<string>, Crash>)
    ensures r.Success? <==> forall i :: 0 <= i < |names| ==> names[i] in lookup
    ensures r.Failure? ==> r.error.UnknownName? && r.error.name in names
  {
    match DecorateNames(lookup, names)
    case Failure(e) => Failure(e)
    case Success(d) => Success(Undecorate(SortDesc(d)))
  }

  /** The sorted list exists exactly when every entry has a name; it is then a
      permutation of the input, its names never increase, and entries of equal
      name keep their relative order. */
  lemma SortByNameSpec(lookup: NameLookup, names: seq<string>)
    ensures var r := SortByName(lookup, names);
      && (r.Success? <==> forall i :: 0 <= i < |names| ==> names[i] in lookup)
      && (r.Success? ==>
            && multiset(r.value) == multiset(names)
            && (forall i :: 0 <= i < |r.value| ==> r.value[i] in lookup)
            && (forall i, j :: 0 <= i < j < |r.value| ==> StrLe(lookup[r.value[j]], lookup[r.value[i]]))
            && (forall n :: IdsNamed(r.value, lookup, n) == IdsNamed(names, lookup, n)))
  {
    var d := DecorateNames(lookup, names);
    if d.Success? {
      SortByNameCorrect(d.value, lookup);
    }
  }

  /** What one run of the script leaves behind: the rewritten lists (`None`
      when not rewritten), whether the signature file was removed, and the
      uncaught exception that ended it, if any. */
  datatype ScriptOutcome = ScriptOutcome(
    modsOrder: Option<seq<string>>,
    enabledMods: Option<seq<string>>,
    signatureRemoved: bool,
    crash: Option<Crash>)

  /** The script's control flow (Sort_Mod_Order.py:12-81). `guiOrder` and
      `enabledMods` are the documents' list values, `None` when the key is
      absent. */
  function Outcome(c: UuidCodec, rs: seq<RawRecord>, guiOrder: Option<seq<string>>, enabledMods: Option<seq<string>>)
    : (out: ScriptOutcome)
    ensures out.signatureRemoved <==> out.enabledMods.Some?
    ensures out.enabledMods.Some? ==> out.crash.None?
  {
    match LookupOf(c, rs)
    case Failure(e) => ScriptOutcome(None, None, false, Some(e))
    case Success(lookup) =>
      if lookup == map[] then ScriptOutcome(None, None, false, None)
      else if guiOrder.None? then ScriptOutcome(None, None, false, Some(MissingKey("modsOrder")))
      else
        match SortByName(lookup, guiOrder.value)
        case Failure(e) => ScriptOutcome(None, None, false, Some(e))
        case Success(sortedGui) =>
          var written := if guiOrder.value == [] then None else Some(sortedGui);
          if enabledMods.None? then ScriptOutcome(written, None, false, Some(MissingKey("enabled_mods")))
          else
            match SortByName(lookup, enabledMods.value)
            case Failure(e) => ScriptOutcome(written, None, false, Some(e))
            case Success(sortedEnabled) =>
              if enabledMods.value == [] then ScriptOutcome(written, None, false, None)
              else ScriptOutcome(written, Some(sortedEnabled), true, None)
  }

  /** One run of the script on parsed documents. */
  method Run(c: UuidCodec, rs: seq<RawRecord>, guiOrder: Option<seq<string>>, enabledMods: Option<seq<string>>)
    returns (out: ScriptOutcome)
    ensures out == Outcome(c, rs, guiOrder, enabledMods)
  {
    var lookupResult := BuildNameLookup(c, rs);
    if lookupResult.Failure? {
      return ScriptOutcome(None, None, false, Some(lookupResult.error));
    }
    var lookup := lookupResult.value;
    if lookup == map[] {
      return ScriptOutcome(None, None, false, None);
    }
    if guiOrder.None? {
      return ScriptOutcome(None, None, false, Some(MissingKey("modsOrder")));
    }
    var allMods := Decorate(lookup, guiOrder.value);
    if allMods.Failure? {
      return ScriptOutcome(None, None, false, Some(allMods.error));
    }
    var written: Option<seq<string>> := None;
    if allMods.value != [] {
      written := Some(Undecorate(SortDesc(allMods.value)));
    }
    if enabledMods.None? {
      return ScriptOutcome(written, None, false, Some(MissingKey("enabled_mods")));
    }
    var enabled := Decorate(lookup, enabledMods.value);
    if enabled.Failure? {
      return ScriptOutcome(written, None, false, Some(enabled.error));
    }
    if enabled.value == [] {
      return ScriptOutcome(written, None, false, None);
    }
    out := ScriptOutcome(written, Some(Undecorate(SortDesc(enabled.value))), true, None);
  }

  /** The script's promises: a rewritten list is a non-empty input list sorted
      by name as `SortByNameSpec` states; the signature file goes exactly when
      the enabled list is rewritten; an entry without a name stops the run. An
      empty lookup writes nothing. With a non-empty lookup and a fully named
      `modsOrder`, that list is rewritten exactly when it is non-empty; then a
      missing `enabled_mods` or an unnamed entry in it stops the run with the
      GUI list already written, and a fully named `enabled_mods` is rewritten
      exactly when it is non-empty. */
  lemma OutcomeSpec(c: UuidCodec, rs: seq<RawRecord>, guiOrder: Option<seq<string>>, enabledMods: Option<seq<string>>)
    ensures var out := Outcome(c, rs, guiOrder, enabledMods);
      && (out.signatureRemoved <==> out.enabledMods.Some?)
      && (out.modsOrder.Some? ==>
            && LookupOf(c, rs).Success? && guiOrder.Some? && guiOrder.value != []
            && Success(out.modsOrder.value) == SortByName(LookupOf(c, rs).value, guiOrder.value))
      && (out.enabledMods.Some? ==>
            && LookupOf(c, rs).Success? && out.crash.None? && enabledMods.Some? && enabledMods.value != []
            && Success(out.enabledMods.value) == SortByName(LookupOf(c, rs).value, enabledMods.value))
      && (LookupOf(c, rs).Success? && LookupOf(c, rs).value != map[] && guiOrder.Some? ==>
            forall i :: 0 <= i < |guiOrder.value| && guiOrder.value[i] !in LookupOf(c, rs).value ==>
              out.crash.Some? && out.modsOrder.None? && out.enabledMods.None?)
      && (LookupOf(c, rs) == Success(map[]) ==> out == ScriptOutcome(None, None, false, None))
    ensures var out := Outcome(c, rs, guiOrder, enabledMods);
      var lookup := LookupOf(c, rs);
      lookup.Success? && lookup.value != map[] && guiOrder.Some?
        && (forall i :: 0 <= i < |guiOrder.value| ==> guiOrder.value[i] in lookup.value) ==>
        && (out.modsOrder.Some? <==> guiOrder.value != [])
        && (enabledMods.None? ==> out.crash == Some(MissingKey("enabled_mods")))
        && (enabledMods.Some? && (exists i :: 0 <= i < |enabledMods.value| && enabledMods.value[i] !in lookup.value) ==>
              out.crash.Some? && out.enabledMods.None?)
        && (enabledMods.Some? && (forall i :: 0 <= i < |enabledMods.value| ==> enabledMods.value[i] in lookup.value) ==>
              out.crash.None? && (out.enabledMods.Some? <==> enabledMods.value != []))
    ensures var out := Outcome(c, rs, guiOrder, enabledMods);
      var lookup := LookupOf(c, rs);
      && (lookup.Failure? ==>
            out == ScriptOutcome(None, None, false, Some(lookup.error))
            && (lookup.error.MissingKey? || lookup.error.MalformedId?))
      && (lookup.Success? && lookup.value != map[] && guiOrder.None? ==>
            out == ScriptOutcome(None, None, false, Some(MissingKey("modsOrder"))))
  {
    if LookupOf(c, rs).Success? && LookupOf(c, rs).value != map[] && guiOrder.Some? {
      var lookup := LookupOf(c, rs).value;
      var d := DecorateNames(lookup, guiOrder.value);
      if d.Failure? {
        assert Outcome(c, rs, guiOrder, enabledMods) == ScriptOutcome(None, None, false, Some(d.error));
      }
    }
  }
}
