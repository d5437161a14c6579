# StellarisModSort, modelled in Dafny

StellarisModSort reconciles three JSON documents of the Stellaris launcher:
- the mod registry (`mods_registry.json`);
- the GUI presentation order (`game_data.json`, key `modsOrder`);
- the enabled/load list (`dlc_load.json`, key `enabled_mods`).

It can also remove the cached signature file `dlc_signature`. This project models its two programs:

- **`ModLoader` (Functional.py)**, a class whose methods update the mod table
  `mod_dict` and the identifier index `mod_lookup`. It is modelled as the
  Dafny class `Loader.ModLoader` with one field per piece of Python state:
  - `modDict` and `modLookup`;
  - the list values of the two order documents, `guiOrder` and `enabledList`;
  - the blacklist `ignoredList`;
  - `log`, the console error messages;
  - `invalidations`, a ghost counter of signature-file removals.

  The methods keep the source's loops. Each loop is proved against a
  specification function: a left fold over the input for in-order loops, or
  a statement about membership for loops over a Python set or dict. The
  properties are proved about those functions. The modules split the code as
  follows:
  - `Registry`: the registry load and the enabled-list pass of `__init__`.
  - `EnabledList`: export, import and their round trip.
  - `ImportMerge`: the three passes of `enable_import_list`.
  - `NameSort`: the decorate-sort-undecorate sort by display name.
  - `OrderWriters`: the list building of the two writers.
- **The script Sort_Mod_Order.py**, modelled in module `SortModOrder`:
  - a method for each of its loops;
  - the whole run as `Run`, proved equal to the function `Outcome`.

Several things are modelled as values:
- Python's `uuid` module is the abstract codec `Common.UuidCodec`, a text-to-integer
  `parse` and an integer-to-text `format`. The ghost predicate `Lawful` states
  what the module guarantees: parsed values fit in 128 bits, and formatted
  128-bit values parse back.
- Parsed JSON documents are parameters, with `Option` for keys that may be
  absent.
- An uncaught exception is `Result.Failure(Crash)`.
- Python dicts that keep insertion order are `EnabledList.Dict(keys, values)`.

### Where the code and its design description differ (the model follows the code)
- `enable_import_list` rewrites enabled flags but never removes the signature
  file (Functional.py:205-260). Only `enable_mod` and `disable_mod` do, so
  `invalidations` changes only there. Its reset pass clears every flag except
  that of a blacklisted entry when blacklisted entries are not included: that
  flag is left as it was (Functional.py:218-224).
- The registry loop keeps `id_str`/`id_int` and `gameRegistryId` from the
  previous record when a record lacks the key (Functional.py:46-55). The
  missing key is only logged. A record without `id` is stored under the
  previous record's integer, overwriting that entry. A record without
  `gameRegistryId` gets its own entry, and the previous record's
  `gameRegistryId` is re-pointed to the new key in the index
  (Functional.py:93, 107). When no earlier record had the key, either case
  raises NameError, which ends the load (Registry.LoadRecord).
- A malformed UUID or a non-integer `steamId`/`timeUpdated` ends the whole
  registry load. Entries loaded before it are kept (Functional.py:109-110).
  A malformed record is not skipped.
- The apply pass of `enable_import_list` logs the same "non-unique" message
  for two cases: an id that is not in the working set, and an id that is
  missing from the table (Functional.py:236-241). Both are `NonUnique` in the
  model.
- A GUI order whose ids do not parse is still kept in the loader; only a
  message is printed (Functional.py:112-121). The parse loop of `__init__`
  has no effect on the stored order.
- `write_mod_enabled_order` raises NameError on a leaked enabled element
  (see Findings). `OrderWriters.LeakedEnabledAsWritten` models that writer as
  written; `Loader.ModLoader.WriteModEnabledOrder`,
  `OrderWriters.BuildEnabledOrder` and `OrderWriters.AppendEnabledLeaked`
  model the corrected writer, which logs and lists each enabled leaked
  element.

## Model

| member | source | states |
|---|---|---|
| Common.FormatInjective | Functional.py:170 | distinct 128-bit ids have distinct canonical UUID text |
| Registry.Sanitise | Functional.py:56-106 | the stored record keeps every present field and takes the program's default for each absent one (`Unnammed Mod`, `0.0.0`, `none`, `undefined`, `['']`, empty thumbnails, 0 for the integers); it carries its id and registry id and is not enabled |
| Registry.LoadRecord | Functional.py:44-108 | one iteration of the registry loop; its effect is stated by `LoadRecordFootprint` and `LoadRecordWellFormed` |
| Registry.LoadRecordFootprint | Functional.py:44-108 | one iteration either raises and keeps the table and index, or adds exactly the current id to the table and the current `gameRegistryId` and id text to the index, stale or not; the log only grows |
| Registry.LoadRegistry | Functional.py:43-110 | after any registry, every table entry sits under its own id, every index entry resolves to a table key, and no entry is enabled |
| Registry.LoadRegistryAbortSticks | Functional.py:35-110 | once an exception ends the loop, later records change nothing |
| Registry.LoadRegistryKeysInRange | Functional.py:46-49 | every table key is a 128-bit UUID integer |
| Registry.LoadRecordWellFormed | Functional.py:43-108 | a complete record is stored sanitised under its UUID integer, and both its `gameRegistryId` and its id text resolve to it |
| Registry.LoadRegistryIndexNames | Functional.py:43-108 | for a registry whose every record has a parseable id, a `gameRegistryId` and integer-convertible `steamId` and `timeUpdated`, the load does not abort and the index holds exactly the records' `gameRegistryId`s and id texts |
| Registry.LoadRegistryIndexesEveryRecord | Functional.py:43-108 | for a well-formed registry with distinct keys, the table holds exactly the records' UUID integers, each record sanitised and indexed by both names, and the index holds exactly those names |
| Registry.AllIndexedStep | Functional.py:43-108 | loading one more record with fresh keys keeps every earlier record indexed |
| Registry.IndexedPreserved | Functional.py:93-108 | storing a record with other keys and names leaves an indexed record indexed |
| Registry.EnableListed | Functional.py:128-132 | the enabled-list pass keeps the table's key set |
| Registry.EnableListedExactly | Functional.py:128-132 | the pass sets `enabled` exactly on entries some listed name resolves to, keeps every other flag and changes no other field |
| EnabledList.Put | Functional.py:197-202 | dict assignment: a new key goes last, an existing key keeps its place, the value is replaced |
| EnabledList.ImportRecord | Functional.py:194-202 | one iteration of the parse loop succeeds exactly when the record has `id`, `displayName`, `enabled` and `steamId` and its id parses |
| EnabledList.ImportRecords | Functional.py:192-202 | an imported dict lists each key once and holds exactly its listed keys |
| EnabledList.ImportRecordsSucceeds | Functional.py:192-202 | the parse loop succeeds exactly when every record has all four keys and a parseable id |
| EnabledList.ImportRecordsStep | Functional.py:192-202 | on a complete document, the loop stores the last record's value under its parsed id after the earlier records |
| EnabledList.ImportRecordsCorrect | Functional.py:192-202 | on a complete document the dict holds exactly the parsed ids, once each, in order of first occurrence (a repeated id collapses into its first place), and each id maps to the value of the last record with that id |
| EnabledList.ImportFailureSticks | Functional.py:192-202 | once the parse loop raises, later records change nothing |
| EnabledList.ImportEnabledList | Functional.py:182-203 | an unreadable document is logged and reads as the empty dict; otherwise the records are parsed in order |
| EnabledList.ExportRecords | Functional.py:157-172 | the export loop; a failure is the KeyError of an id in the order that the table lacks |
| EnabledList.ExportSucceeds | Functional.py:157-172 | the export succeeds if and only if every id of the order is in the table |
| EnabledList.ExportContentsStep | Functional.py:157-172 | one loop iteration keeps the exported contents exact |
| EnabledList.ExportOrderStep | Functional.py:157-172 | one loop iteration keeps the keys in order of first appearance |
| EnabledList.ExportSelectsEnabled | Functional.py:157-172 | the exported dict holds once each exactly the enabled ids of the order not excluded by the blacklist, each with its display name, `enabled` true, canonical id text and Steam id, in the order of first appearance |
| EnabledList.Render | Functional.py:173-174 | the dumped document has one record per dict key |
| EnabledList.ImportRenderedEntry | Functional.py:192-202 | reading back one dumped record appends its key with the same value |
| EnabledList.ImportRenderRoundTrip | Functional.py:192-202 | importing a dumped dict whose id texts parse to their own keys gives back the same keys in the same order, with the same values |
| EnabledList.ImportRenderDict | Functional.py:192-202 | the same round trip for a whole well-formed dict |
| EnabledList.ExportedKeysCanonical | Functional.py:170 | the id text the export writes parses back to its key |
| EnabledList.ExportImportRoundTrip | Functional.py:151-203 | importing what `export_enabled_list` wrote gives back exactly the exported dict |
| Loader.ExportMergeFlags | Functional.py:151-241 | exporting the enabled list of an order and merging it back into that order reads back the exported dict and leaves the same enabled set: an entry the blacklist lets through is enabled exactly when the order names it and it was enabled before, with no other field changed; a held-back entry is untouched |
| ImportMerge.ResetEntry | Functional.py:218-224 | the reset pass changes only the flag, which stays set only for an enabled blacklisted entry when blacklisted entries are not included |
| ImportMerge.ResetTable | Functional.py:218-224 | the reset pass keeps the table's key set |
| ImportMerge.Applicable | Functional.py:212 | the import is applied when every imported id is in the current GUI order, or when forced |
| ImportMerge.ApplyOne | Functional.py:227-241 | one iteration of the apply pass removes the visited id from the working set, keeps the table's key set and appends at most that id to the load order |
| ImportMerge.ApplyImports | Functional.py:226-241 | the apply pass over the imported ids; its effect is stated by `ApplyImportsClosedForm` and `ApplyImportsTable` |
| ImportMerge.Selected | Functional.py:229-238 | the appended ids are exactly the imported ids in the working set that the blacklist lets through, without duplicates |
| ImportMerge.ApplyImportsClosedForm | Functional.py:226-241 | the apply pass removes the imported ids from the working set, appends the selected ids in import order and logs one line per id that raised |
| ImportMerge.ApplyImportsOrder | Functional.py:236-238 | the load order gains the selected ids in import order |
| ImportMerge.ApplyImportsLog | Functional.py:236-241 | the log gains one line per imported id that is missing from the working set or adopted but missing from the table |
| ImportMerge.ApplyImportsKeys | Functional.py:226-241 | the apply pass adds and removes no table entry |
| ImportMerge.ApplyImportsPool | Functional.py:236 | the working set loses exactly the imported ids |
| ImportMerge.ApplyOneTable | Functional.py:227-241 | one iteration enables at most the id it visits |
| ImportMerge.ApplyImportsTable | Functional.py:226-241 | the apply pass enables exactly the selected ids the table holds and changes nothing else |
| ImportMerge.ImportFlags | Functional.py:218-241 | after the reset and apply passes, every flag is set exactly for the selected imported ids of the current order and for the kept enabled blacklisted entries; no other field changes |
| ImportMerge.SplitTail | Functional.py:242-246 | the untouched ids of the current order are split without duplicates into the enabled ones (head) and the disabled ones (tail); an id the table lacks raises KeyError |
| ImportMerge.MergedOrder | Functional.py:248-254 | the three return branches all give the head followed by the load order |
| ImportMerge.MergedOrderShape | Functional.py:215-254 | the merged order has no duplicates and holds exactly the ids of the current order, minus imported ids the blacklist holds back; with blacklisted ids excluded, no imported blacklisted id appears |
| NameSort.StrLeRefl | Functional.py:282 | Python's string `<=` is reflexive |
| NameSort.StrLeTotal | Functional.py:282 | Python's string `<=` is total |
| NameSort.StrLeTrans | Functional.py:282 | Python's string `<=` is transitive |
| NameSort.StrLeAntisymmetric | Functional.py:282 | Python's string `<=` is antisymmetric |
| NameSort.InsertDesc | Functional.py:282 | insertion adds exactly the inserted pair |
| NameSort.SortDesc | Functional.py:282 | the sort is a permutation of its input |
| NameSort.InsertDescNonIncreasing | Functional.py:282 | insertion keeps names non-increasing |
| NameSort.SortDescNonIncreasing | Functional.py:282 | the sorted names never increase (`reverse=True`) |
| NameSort.InsertDescWithName | Functional.py:282 | insertion puts a pair before the pairs of equal name already there |
| NameSort.SortDescStable | Functional.py:282 | the sort is stable: pairs of equal name keep their relative order |
| NameSort.Undecorate | Sort_Mod_Order.py:40 | undecorating keeps each pair's id, position by position |
| NameSort.UndecorateSortDesc | Sort_Mod_Order.py:39-40 | the undecorated sorted ids are a permutation of the undecorated input |
| NameSort.UndecorateWithName | Sort_Mod_Order.py:39-40 | the ids with a given name are the undecorated pairs with that name |
| NameSort.SortByNameCorrect | Sort_Mod_Order.py:39-40 | decorate-sort-undecorate gives a permutation of the ids, in non-increasing name order, with ids of equal name in their original relative order |
| OrderWriters.LeaksSnoc | Functional.py:298-299 | one more leaked id adds one "Leaked element" line |
| OrderWriters.ConsumeOne | Functional.py:291-296 | one iteration of the first loop of either writer removes the visited id from the working set |
| OrderWriters.Consume | Functional.py:291-296 | the first loop of either writer over the order (also Functional.py:311-317); its effect is stated by `ConsumeCorrect` |
| OrderWriters.ConsumeCorrect | Functional.py:291-296 | the first loop consumes each known id of the order exactly once, in the order of its first mention, and logs every other mention; the working set loses exactly the mentioned ids |
| OrderWriters.EnabledOf | Functional.py:314-315 | the enabled ids are exactly those of the list that the table holds enabled, without duplicates |
| OrderWriters.RegistryIdsAt | Functional.py:315 | the registry ids are, position by position, those of the listed ids |
| OrderWriters.ConsumeGui | Functional.py:291-296 | the first loop of `write_gui_order` drains the working set as `Consume` states and emits the canonical text of each consumed id |
| OrderWriters.AppendLeaked | Functional.py:298-300 | the leaked loop appends every key left in the working set, once each, with one log line each |
| OrderWriters.BuildGuiOrder | Functional.py:287-300 | the GUI list holds the text of every table key exactly once: first the keys the order names, in order of first mention, then the leaked keys, each leaked key logged |
| OrderWriters.FormattedDistinct | Functional.py:294-300 | the written GUI texts are pairwise distinct |
| OrderWriters.ConsumeEnabled | Functional.py:311-317 | the first loop of `write_mod_enabled_order` drains the working set as `Consume` states and emits the registry id of each consumed enabled id |
| OrderWriters.AppendEnabledLeaked | Functional.py:318-321 | corrected (see Findings): the leaked loop appends, with the intended message, every enabled key left in the working set, once each |
| OrderWriters.BuildEnabledOrder | Functional.py:307-321 | corrected (see Findings): the enabled list holds the registry id of every enabled entry exactly once: first the enabled ids the order names, in order of first mention, then the enabled leaked ones, each logged |
| OrderWriters.AppendEnabledLeakedAsWritten | Functional.py:318-321 | the leaked loop as written drains the working set and raises NameError exactly when some key left in it is enabled; otherwise the list is unchanged |
| OrderWriters.LeakedEnabledAsWritten | Functional.py:307-321 | `write_mod_enabled_order` as written raises NameError exactly when some enabled table key is missing from the order; otherwise it gives the registry ids of the enabled ids the order names, in order of first mention, with the first loop's log |
| OrderWriters.EnabledLeakCounterexample | Functional.py:318-321 | one enabled mod and an empty order: the as-written writer raises NameError, while the intended writer gives `["mod/one.mod"]` |
| Loader.ParseOrder | Functional.py:176-180 | the conversion succeeds exactly when every text parses; the result then lists each text's integer in order; otherwise it fails with ValueError on an unparseable text |
| Loader.CurrentOrder | Functional.py:176-180 | reading the GUI order as integers succeeds exactly when `modsOrder` is present and every text parses, giving one integer per text; otherwise KeyError or ValueError |
| Loader.ParseFormatted | Functional.py:176-180 | the text `write_gui_order` writes for table keys parses back to those keys |
| Loader.LoadedRegistry | Functional.py:34-110 | after the constructor's registry step, the table and index are consistent and nothing is enabled; an unreadable document loads nothing |
| Loader.DisplayNames | Functional.py:279 | one display name per table key |
| Loader.Known | Functional.py:276-281 | the ids the sort keeps are exactly those of the list the table holds |
| Loader.DecorateIds | Functional.py:276-281 | decorating keeps at most one pair per listed id, each for an id of the list that the table holds |
| Loader.DecorateIdsSpec | Functional.py:276-281 | each decorated pair carries its id's display name, and the decorated ids are the known ids in list order |
| Loader.SortGlobalSpec | Functional.py:274-285 | the sorted list holds the known ids of the input with their multiplicities, in non-increasing name order, with equal names in their original relative order |
| Loader.LoadedRegistryKeysInRange | Functional.py:46-49 | every loaded key is a 128-bit UUID integer |
| Loader.ModLoader.constructor | Functional.py:29-134 | the loader starts consistent, with the registry loaded, both documents' lists kept, the enabled list applied and the handled errors logged in order |
| Loader.ModLoader.LoadRecords | Functional.py:43-110 | the registry loop leaves the table, index and log of `LoadRegistry` |
| Loader.ModLoader.LoadOne | Functional.py:44-108 | one iteration of the registry loop does what `LoadRecord` states |
| Loader.ModLoader.ReadGuiOrder | Functional.py:112-121 | the GUI list is kept as read; an unreadable document, a missing `modsOrder` or an unparseable id adds one log line |
| Loader.ModLoader.ApplyEnabledList | Functional.py:128-132 | the loop leaves the table of `EnableListed` and one log line per unresolved name, and keeps the loader consistent |
| Loader.ModLoader.DisableMod | Functional.py:137-142 | a known id is disabled with nothing else changed and the signature removed once; an unknown id only adds a log line |
| Loader.ModLoader.EnableMod | Functional.py:144-149 | a known id is enabled with nothing else changed and the signature removed once; an unknown id only adds a log line |
| Loader.ParseFailureSticks | Functional.py:176-180 | once a text fails to parse, later texts change nothing |
| Loader.ExportFailureSticks | Functional.py:157-172 | once the export raises, later ids change nothing |
| Loader.ModLoader.GetUuidIntList | Functional.py:176-180 | the current GUI order as integers, KeyError without `modsOrder`, ValueError on an unparseable text |
| Loader.ModLoader.ExportEnabledList | Functional.py:151-172 | an empty order means the current GUI order; the result is the export of that order |
| Loader.ModLoader.EnableImportList | Functional.py:205-260 | a failed import or GUI order read changes no flag; an inapplicable import returns the current order and logs the missing ids; an applicable one sets the flags as `ImportedFlags` states and returns the enabled untouched ids, then the selected imported ids, then the disabled untouched ids, with no duplicates |
| Loader.ModLoader.MergeImport | Functional.py:214-254 | the three passes set the flags as `ImportedFlags` states, log one line per id that raised, and return a merged order without duplicates holding the current order's ids minus the held-back imported ids; KeyError exactly when an untouched id is not in the table |
| Loader.ModLoader.ResetFlags | Functional.py:218-224 | the reset pass over the table leaves `ResetTable` |
| Loader.ModLoader.ApplyImported | Functional.py:226-241 | the apply loop leaves the working set, load order, table and log of `ApplyImports` |
| Loader.ModLoader.SortGlobalList | Functional.py:274-285 | the new list is the known ids of the input, permuted into non-increasing display-name order, stable for equal names; each unknown id adds a log line |
| Loader.ModLoader.WriteGuiOrder | Functional.py:287-302 | `modsOrder` becomes one text per written id, each the canonical text of its id; the written ids are every table key exactly once, the ids the order names first; the list parses back to those ids and each leaked key is logged |
| Loader.ModLoader.WriteModEnabledOrder | Functional.py:307-323 | corrected (see Findings): `enabled_mods` becomes the registry id of every enabled entry exactly once, the enabled ids the order names first, each enabled leaked id logged |
| SortModOrder.AddRecord | Sort_Mod_Order.py:16-22 | one iteration of the lookup loop; it raises only KeyError or ValueError |
| SortModOrder.LookupOf | Sort_Mod_Order.py:12-22 | the lookup loop over the registry; it raises only KeyError or ValueError, and `LookupOfCorrect` states its result |
| SortModOrder.LookupOfCorrect | Sort_Mod_Order.py:12-22 | the lookup loop succeeds exactly when every record has its keys and a valid id; the lookup then holds exactly the records' registry ids and id texts, each with the display name of the last record that mentions it |
| SortModOrder.LookupNamesRecord | Sort_Mod_Order.py:16-22 | a record whose names no later record mentions has both names mapped to its display name |
| SortModOrder.LastNameAfter | Sort_Mod_Order.py:16-22 | the last mention of a name decides its display name |
| SortModOrder.BuildNameLookup | Sort_Mod_Order.py:12-22 | the loop builds the lookup of `LookupOf`, stopping at the first record that raises |
| SortModOrder.DecorateNames | Sort_Mod_Order.py:34-35 | decorating succeeds exactly when every entry has a name; each pair then carries its entry's name and undecorates to the input; otherwise it fails with KeyError on a nameless entry |
| SortModOrder.Decorate | Sort_Mod_Order.py:56-57 | the decorate loop computes `DecorateNames`, stopping at the first KeyError |
| SortModOrder.LookupFailureSticks | Sort_Mod_Order.py:16-22 | once the lookup loop raises, later records change nothing |
| SortModOrder.DecorateFailureSticks | Sort_Mod_Order.py:34-35 | once a decorate loop meets an unknown name, later entries change nothing |
| SortModOrder.SortByName | Sort_Mod_Order.py:34-40 | sorting a list succeeds exactly when every entry has a name; otherwise KeyError on an entry of the list |
| SortModOrder.SortByNameSpec | Sort_Mod_Order.py:34-40 | sorting a list succeeds exactly when every entry has a name; the result is then a permutation of the input, in non-increasing name order, stable for equal names |
| SortModOrder.Outcome | Sort_Mod_Order.py:12-81 | the script's control flow; the signature file is removed exactly when the enabled list is rewritten, and only on a run that ends without an exception |
| SortModOrder.Run | Sort_Mod_Order.py:12-81 | one run of the script computes `Outcome` |
| SortModOrder.OutcomeSpec | Sort_Mod_Order.py:12-81 | a rewritten list is the non-empty input list sorted by name; the signature file goes exactly when the enabled list is rewritten; a lookup that raises (KeyError or ValueError) ends the run with that exception and nothing written; an empty lookup ends the run with nothing written; a missing `modsOrder` after a non-empty lookup raises KeyError with nothing written; a GUI entry without a name stops the run before anything is written; when the lookup is non-empty and every GUI entry is named, the GUI list is rewritten exactly when non-empty, a missing `enabled_mods` or an unnamed enabled entry crashes after that write with the enabled list untouched, and otherwise the enabled list is rewritten exactly when non-empty |

## Left out

- File I/O and JSON: documents come in parsed and the written lists stay in fields or results. This leaves out `.bak` copies, `json.dump` separators and the other keys of each document, which are kept unchanged.
- `main`, `argparse`, `print_list` and every console print that is not an error message are not modelled; error messages become `Warning` values in `log`.
- The UUID text grammar is not modelled: `UuidCodec` is abstract, with only the guarantees of `Lawful`.
- Set iteration order (hash order) is left open. The working set of `enable_import_list` and the leaked elements of both writers take their elements by nondeterministic choice, so those contracts are stated by membership, not position.
- Loader.ModLoader.ResetFlags: the reset pass iterates `mod_dict` in insertion order; the model visits the keys in an unspecified order, which does not change the result because each entry is reset on its own (`ImportMerge.ResetTable`). The loop runs on a local copy of the table and assigns it once, so the in-place update order is not modelled.
- Loader.ModLoader.WriteModEnabledOrder: models the corrected writer; the as-written NameError is OrderWriters.LeakedEnabledAsWritten.
- `ModLoader`'s class-level containers are shared between instances in Python; the model gives each loader its own fields.
- The signature file is modelled only as the ghost counter `invalidations`; a missing file is ignored as in `_invalidate_hash`.
- The blacklist import at the start of `__init__` happens before the constructor and is passed in as a parsed dict; an exception there would stop the constructor.
- Loader.ModLoader.SortGlobalList: models only the `Rev=True` call the program makes; `reverse=False` is not modelled. The caller's list, cleared and refilled in place, is modelled as a returned sequence. The `ValueError` that `UUID(int=mod_id)` can raise in the skip handler for an out-of-range id is not modelled; every skipped id is logged.
- An unreadable document in Sort_Mod_Order.py (the script has no handler) is not modelled: `Run` starts from parsed documents.
- Loader.ModLoader.EnableImportList: the rejection branch prints each missing id with its display name; the model logs the set of missing ids.

## Findings

| source | as written | input that shows it | evidently intended | confidence | as-written member | corrected member |
|---|---|---|---|---|---|---|
| Functional.py:320 | the "Leaked element" message of `write_mod_enabled_order` formats `mod_id`, a name not defined in that method or module, so the first enabled leaked element raises NameError and the enabled list is never written | a table with one enabled mod and an order that does not name it | log the leaked id (`int_id`) and append its `gameRegistryId`, as `write_gui_order` does | high (not executed) | OrderWriters.LeakedEnabledAsWritten | OrderWriters.BuildEnabledOrder |
