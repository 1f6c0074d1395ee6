# EdgeLite: verified models of the configuration, contract-check and mapping cores

EdgeLite is an industrial edge gateway. This project models the parts of it whose correctness is hardest to see by
reading, and proves what they promise:

- **URL constants** (`TsLexer`, `TsSyntax`, `TemplateSubst`, `UrlConstants`, `UrlHeader`, `UrlRoundTrip`). The API
  contract checker reads `const URL = { ... }` out of a TypeScript file with a hand-written scanner: quoted strings,
  templates, `${...}` inside templates, nested braces, arrow functions. The model has the scanner as loops over
  positions and flags, proves them equal to a structured definition, proves that brace matching finds the first
  closing brace of the lexeme-wise reading, that the header search finds the leftmost declaration, and the round trip:
  an object printed behind any text without a declaration of its own, with any white space, and with comments that
  hold no quote, brace or `key:`, parses to exactly what it declares.
- **Path normalisation** (`PathNormal`, `PathSegments`). Three regular-expression passes, one of them repeated until
  nothing changes. Proved: the loop ends on every string, and on well-formed paths it acts segment by segment, is
  idempotent, and gives two paths one key exactly when they agree segment by segment.
- **Configuration** (`ConfigTree`, `TextSplit`, `EnvOverrides`, `Secrets`, `SaveProtocol`, `ConfigPersistence`,
  `PlaceholderReading`, `ConfigStore`). Deep merge, reading and writing along key paths, environment overrides from
  the name and text of each variable, placeholders read piece by piece, encryption of listed secrets, and the save
  protocol (snapshot, temporary file, atomic replacement, publication) in any number of saves at once, with a failure
  or a crash between any two steps, through to loading what was saved.
- **Hot reload** (`HotReload`, `ConfigHotReloader`). The watcher as a state machine over the sections that its locks
  make atomic, for every interleaving of watching, unwatching, scanning, rolling back and reloading by hand; and the
  reloader object, whose methods are proved to take the steps of that machine.
- **Configuration diff** (`ConfigDiff`). The recursive diff and a patch operation that inverts it.
- **Modbus mapping** (`ModbusMapper`). Points laid out in registers and coils, high word first (section 4.2 of the
  MODBUS Application Protocol Specification V1.1b3).
- **Data quality** (`DataQuality`). The three-sigma count, with the inequalities of Cauchy-Schwarz, Chebyshev and
  Samuelson behind it.
- **Bounded stores** (`LearnerCache`, `PacketRecorder`, `VersionStore`). A least-recently-used cache, ring buffers
  with a polling reader, and a version store, each proved to be a simple function of its whole history.

Files that the source works through step by step are modelled as classes and loops (`UrlParser`, `DiffWalker`,
`SensitiveConfig`, `ConfigHotReloader`, `ConfigStore`, `LearnerStore`, `Recorder`, `OpcUaConfigVersionManager`, the
mapping loop over arrays); every such method is proved against a function, and the theorems are about that function.
What lies outside (hashing, parsing, encryption, validation, reading files, the environment and lower-casing) enters
as parameters: `Oracle`, `SecretManager`, `Format`, `Site`, `Fault`, `Environment`.

## Where the code and its documentation differ

- `load_config` says that it recovers from a snapshot when the file is empty or damaged (`config.py:815-816`); it does
  so only when reading raises an exception of the system or of YAML. A file that is no UTF-8 raises another, which
  escapes. `SnapshotUsedIff` gives the exact condition.
- A snapshot is recorded before the file is replaced, so recovery may bring back a configuration whose save had
  failed, or, when two saves crossed and both returned, one that the file no longer held. On any schedule it gives
  what the file held exactly when the save that replaced it last stored the same as the one that recorded last
  (`RecoveryIff`); with a single save, unless that save recorded something else and never replaced the file
  (`RecoveryAfterOneSave`).
- The version history is said to cover the current file always; it does (`AlwaysWhole`), but `save_config` takes no
  lock, and when two saves cross the file may be the older of the two snapshots (`CrossingSavesDisagree`). On any
  schedule the file is the latest snapshot exactly when the save that replaced it last stored the same as the one that
  recorded last (`FileIsLatestIff`); saves that do not overlap always return so (`SequentialReturn`).
- A text holding `${...}` is saved as it is and expanded when loaded. In a given environment a configuration comes
  back exactly when whatever is not overridden is its own expansion, with no placeholder in a list (`LoadAfterSave`);
  in every environment without overrides, exactly when each placeholder stands outside lists, has no default, names no
  secret, and cannot be set there (`LoadAfterSaveIff`).
- Repeating the template pass is called merely defensive (`check_api_contract.py:240`). One pass is enough exactly
  when no dollar sign that it keeps stands directly before a template (`OnePassEnoughIff`); `/$${id}` needs two
  (`OnePassIsNotEnough`).
- `max_history = 0` keeps everything, since a slice from `-0` is the whole list. `HistoryBoundedIff`.
- Unwatching a file need not last: a watch task queued by an earlier `watch_file` still runs, a change that is being
  applied puts it back, and so does the round in progress when it has still to visit the file and finds a new content.
  It lasts, until someone asks for the file again, exactly when none of these is open. `UnwatchLastsIff`,
  `UnwatchUndone`.
- The waiting time never falls with further failures exactly when the interval is between 0 and 60 seconds; with a
  longer interval it falls at the first failure. `BackoffMonotoneIff`.
- Rollback goes to the newest entry that has an old value and skips manual reloads, which have none.
  `RollbackIsOneStepIff`, `ManualIsSkipped`.
- The diff does not tell a null entry from a missing one. `DiffEmptyIff`, `NullEntryNotReported`.
- Deep merge is not associative. `MergeAssociativeIff`.
- Packets recorded with the protocol `""` or `"__all__"` enter the global buffer twice. `GlobalBufferStrictIff`.
- A reused key or an override of a map by a scalar makes the environment depend on iteration order.
  `OrderFreeIffCompatible`.
- An integer beyond 32 bits takes no register, and one-word values between 32768 and 65535 share their words with
  negative ones. `ReturnsTotal`, `SignedDecodesIff`, `SameWordsIff`.

## Model

| member | source | states |
|---|---|---|
| TsLexer.SkipSubst | scripts/check_api_contract.py:487-495 | skipping `${...}` in a template ends where brace counting without quotes says, whatever follows |
| TsLexer.SubstEndIff | scripts/check_api_contract.py:487-495 | a `${...}` ends exactly with the brace before which no prefix closes more braces than it opens, whatever is nested, and otherwise runs to the end of the text |
| TsLexer.MatchBrace | scripts/check_api_contract.py:464-514 | the flat scanner with its string and template flags returns the same position as the definition by nested modes, and nothing when the block never closes |
| TsLexer.LexemeSpan | scripts/check_api_contract.py:581-633 | a lexeme standing in code is passed over whole, independent of the text behind it |
| TsLexer.LexemesGiveEnd | scripts/check_api_contract.py:472-514 | text of lexemes that stay open is passed over, and the closing brace behind it found |
| TsLexer.EndGivesLexemes | scripts/check_api_contract.py:472-514 | where a closing brace is found, the text before it is such a sequence of lexemes |
| TsLexer.BlockEndIffFirstClose | scripts/check_api_contract.py:464-514 | a position is found if and only if the text up to it is a sequence of lexemes whose brace depth stays open and a closing brace follows: the first position of depth zero, in both directions |
| TsSyntax.ClassIff | scripts/check_api_contract.py:563-577 | separators, blanks, white space, identifier characters and quotes are exactly the characters written out |
| UrlHeader.HeaderIff | scripts/check_api_contract.py:461-461 | the header is matched from one position to another if and only if `const`, white space, `URL`, `=` and `{` with white space between stand there and continue no word |
| UrlHeader.FindHeaderIff | scripts/check_api_contract.py:461-464 | the search arrives at a position if and only if the leftmost declaration of the file ends there, and at nothing if and only if there is none |
| UrlHeader.FoundBehind | scripts/check_api_contract.py:461-464 | a declaration behind any text is the one found if and only if that text holds none of its own |
| TemplateSubst.SingleTemplateIff | scripts/check_api_contract.py:667-667 | `${expr}` becomes exactly `{var}` if and only if the expression is not empty and holds no closing brace |
| UrlConstants.ScanLiteral | scripts/check_api_contract.py:637-658 | the inline literal loop stops where the structured scanner says, for quotes and for templates |
| UrlConstants.ScanParens | scripts/check_api_contract.py:682-694 | the parenthesis loop of an arrow function stops at the matching parenthesis |
| UrlConstants.UrlParser.StoreLiteral | scripts/check_api_contract.py:634-679 | one literal is stored under its dotted key, templates with their holes replaced, and the position behind it returned |
| UrlConstants.UrlParser.StoreValue | scripts/check_api_contract.py:578-738 | reading a value adds exactly its bindings to the table, recursing into objects, and always moves the position on |
| UrlConstants.UrlParser.Walk | scripts/check_api_contract.py:558-740 | walking a body adds exactly the bindings of that body in order and terminates |
| UrlConstants.UrlParser.ParseUrlConstants | scripts/check_api_contract.py:546-740 | the table is empty when there is no block, and otherwise what walking the block assigns, later bindings winning |
| UrlConstants.FindUrlConstBlock | scripts/check_api_contract.py:458-514 | the block is the text between the brace of the first header and its matching brace |
| UrlConstants.SkipClass | scripts/check_api_contract.py:563-564 | skipping stops at the first character outside the class |
| UrlRoundTrip.SubstitutesHoles | scripts/check_api_contract.py:667-667 | in a printed template the expression finds exactly the holes and leaves every other character |
| UrlRoundTrip.ReadsValue | scripts/check_api_contract.py:578-738 | a printed value is read back as its body or as the text that it denotes, up to its end |
| UrlRoundTrip.WalkPrinted | scripts/check_api_contract.py:558-740 | walking printed fields, with any layout and comments between them, yields exactly the bindings they declare |
| UrlRoundTrip.DotKeyInjective | scripts/check_api_contract.py:666-666 | paths of identifiers with one dotted key are equal |
| UrlRoundTrip.AssignTabulates | scripts/check_api_contract.py:546-740 | assigning the declared bindings gives a table with an entry for a dotted path if and only if the object has a leaf there, and with that leaf's text |
| UrlRoundTrip.BlockFound | scripts/check_api_contract.py:458-514 | a printed object standing closed behind the leftmost declaration is found as the block, whatever braces its literals hold |
| UrlRoundTrip.TableFound | scripts/check_api_contract.py:558-740 | the table parsed from a printed object holds exactly its leaves: an entry for a dotted path if and only if there is a leaf, with the leaf's text |
| UrlRoundTrip.RoundTrip | scripts/check_api_contract.py:546-740 | parser and printer round trip: wherever the leftmost declaration stands, an object printed behind it and closed is found as the block, and the table parsed from the file holds exactly the leaves of the object |
| UrlRoundTrip.RoundTripPrinted | scripts/check_api_contract.py:546-740 | the same for whole files: any text that holds no declaration and does not run into it, the declaration with any white space, the object, and anything behind |
| UrlRoundTrip.NothingParsed | scripts/check_api_contract.py:552-554 | a file without a declaration gives no block and an empty table |
| PathNormal.FewerDollars | scripts/check_api_contract.py:241-243 | a pass of the template loop changes nothing or leaves strictly fewer dollar signs |
| PathNormal.SingleParamIff | scripts/check_api_contract.py:235-235 | `{name}` becomes exactly `{var}` if and only if the name is not empty and holds neither slash nor closing brace |
| PathNormal.NormalizePath | scripts/check_api_contract.py:219-247 | the loop ends on every string, at a text that another pass leaves alone, and the result is that of the three rewritings |
| PathNormal.OnePassEnoughIff | scripts/check_api_contract.py:239-243 | the template loop arrives at what its first pass gives if and only if no dollar sign that the pass keeps stands directly before a template |
| TemplateSubst.OnePassIff | scripts/check_api_contract.py:238-243 | a second pass over what the first made of any text changes nothing under exactly that condition |
| PathNormal.OnePassIsNotEnough | scripts/check_api_contract.py:239-243 | a path on which normalisation needs the second pass |
| PathSegments.FirstPass | scripts/check_api_contract.py:234-235 | the first rewriting acts atom by atom, inside templates too |
| PathSegments.SecondPass | scripts/check_api_contract.py:236-243 | the template pass gives every parameter its meaning `{var}` and keeps literal text |
| PathSegments.ThirdPass | scripts/check_api_contract.py:244-245 | a segment behind a slash becomes `{var}` if and only if it is a number; in the last one a newline behind the number stays |
| PathNormal.OtherDigitIff | scripts/check_api_contract.py:245-245 | beyond ASCII, the digits are exactly the ten of each block of decimal digits |
| PathSegments.NumberMeans | scripts/check_api_contract.py:245-245 | every number in decimal notation counts as a parameter, and no ASCII text that holds anything but digits |
| PathSegments.NormalizesPath | scripts/check_api_contract.py:219-247 | a well-formed path, with or without query, normalises segment by segment |
| PathSegments.NormalizeIdempotent | scripts/check_api_contract.py:219-247 | normalising twice is normalising once |
| PathSegments.SameKeyIff | scripts/check_api_contract.py:219-247 | two well-formed paths have one key if and only if they agree segment by segment, so all spellings of a parameter meet |
| ConfigTree.GetNestedValue | src/edgelite/config.py:639-647 | the loop returns the value at the path, null when a key is missing or an intermediate value is no map |
| ConfigTree.GetSetSame | src/edgelite/config.py:1130-1138 | what was set is read back, even where setting replaced a value that was no map |
| ConfigTree.GetSetBelow | src/edgelite/config.py:1130-1138 | below a path just set there is what was set |
| ConfigTree.GetSetAbove | src/edgelite/config.py:1130-1138 | above a path just set there are maps |
| ConfigTree.GetSetOther | src/edgelite/config.py:1130-1138 | every path incomparable with the one set reads as before |
| ConfigTree.SetSetOther | src/edgelite/config.py:1130-1138 | writes to incomparable paths commute |
| ConfigTree.SetGet | src/edgelite/config.py:1130-1138 | writing back what a path holds changes nothing |
| ConfigTree.SetSetSame | src/edgelite/config.py:1130-1138 | of two writes to one path the second counts |
| ConfigTree.DeepMerge | src/edgelite/config.py:614-622 | the loop gives the recursive merge for every order of the overriding keys |
| ConfigTree.MergeAbsorbs | src/edgelite/config.py:614-622 | merging the same overrides once more changes nothing, which makes re-applying them in a save harmless |
| ConfigTree.MergeCoveredIff | src/edgelite/config.py:614-622 | an override replaces the base altogether if and only if it covers every leaf of it |
| ConfigTree.MergeAssociativeIff | src/edgelite/config.py:614-622 | merge is associative on three trees if and only if wherever the middle one cuts off a map, the last covers what was cut |
| ConfigTree.MergeNotAssociative | src/edgelite/config.py:614-622 | map, scalar, map is a counterexample to associativity |
| EnvOverrides.LoadEnvOverrides | src/edgelite/config.py:722-750 | for whatever order the environment is iterated in, the tree is the overrides written one after the other |
| TextSplit.SplitIff | src/edgelite/config.py:738-741 | splitting gives exactly the pieces that join to the text and in none of which a separator begins |
| TextSplit.StripsPadded | src/edgelite/config.py:738-738 | stripping takes exactly the white space off both ends |
| EnvOverrides.NamesIff | src/edgelite/config.py:730-748 | a variable goes to a path if and only if its name is the prefix and, in whatever case, the keys of the path joined by `__`, none of which holds one or runs into it |
| EnvOverrides.MeansIff | src/edgelite/config.py:736-738 | a text without semicolon is read as itself, and one that joins padded items by semicolons as the list of those that are not blank, without their padding |
| EnvOverrides.WriteLast | src/edgelite/config.py:722-750 | any one of compatible overrides may as well be written last |
| EnvOverrides.OrderFreeIffCompatible | src/edgelite/config.py:722-750 | all orders of the overrides give one tree if and only if every two have incomparable paths or agree |
| EnvOverrides.LoadDeterministic | src/edgelite/config.py:722-750 | compatible variables load to one tree for every iteration order |
| EnvOverrides.MergeOverrides | src/edgelite/config.py:845-850 | an override wins in the merge with the file |
| EnvOverrides.BuildAbsent | src/edgelite/config.py:722-750 | a path incomparable with all overrides is absent from the tree of overrides |
| EnvOverrides.MergeElsewhere | src/edgelite/config.py:845-850 | where nothing is overridden the value of the file stays |
| EnvOverrides.MergedOverrides | src/edgelite/config.py:845-850 | after the merge, overridden paths read as the overrides say, and every path incomparable with all of them as the file says |
| EnvOverrides.EffectiveConfiguration | src/edgelite/config.py:722-750 | from the variables themselves: the path that a name spells holds what the text means, for variables that get along and any order of iteration, and every path clear of all names reads as the file says |
| Secrets.SensitiveConfig.EncryptSensitive | src/edgelite/config.py:753-770 | the loop rewrites the listed texts by encryption, keeping those that are empty, encrypted already or fail |
| Secrets.SensitiveConfig.DecryptSensitive | src/edgelite/config.py:773-791 | the loop rewrites the listed texts by decryption, keeping those that fail |
| Secrets.RewritesCommute | src/edgelite/config.py:753-791 | rewritings of incomparable paths commute |
| Secrets.RunReadsListed | src/edgelite/config.py:753-791 | after a run every listed path holds its own text with the operation applied once |
| Secrets.SecretSaved | src/edgelite/config.py:762-769 | a listed text is saved encrypted, unless it is empty, marked as encrypted already, or its encryption raises |
| Secrets.SecretLoaded | src/edgelite/config.py:782-790 | a listed text is loaded decrypted when it is marked as encrypted and its decryption does not raise, and as it is otherwise |
| Secrets.RunFixedIff | src/edgelite/config.py:753-791 | a run changes nothing if and only if no operation changes its text |
| Secrets.RoundTripIff | src/edgelite/config.py:753-791 | for any incomparable paths and any encryptions that fail, decryption restores the whole tree if and only if every listed text that looked encrypted survives decryption |
| Secrets.EncryptIdempotentIff | src/edgelite/config.py:753-770 | encrypting twice is encrypting once if and only if the second time succeeds nowhere that the first failed |
| Secrets.OffPathUntouched | src/edgelite/config.py:753-791 | every value clear of the listed paths is untouched both ways |
| Secrets.ListedPathsOk | src/edgelite/config.py:47-60 | no listed secret path is a prefix of another, so the theorems apply to the list in use |
| SaveProtocol.AlwaysWhole | src/edgelite/config.py:993-1013 | through every interleaving of saves, failures and crashes, the file is what it was at the start or one recorded snapshot written in full |
| SaveProtocol.StaysSaved | src/edgelite/config.py:981-1013 | once a save went through, the file is a recorded snapshot for ever after, and no snapshot is lost |
| SaveProtocol.CrashEnds | src/edgelite/config.py:956-1016 | after a crash, and until a save is begun, file and snapshots stay what they were at the crash, saves that had ended stay so, and all others are lost |
| SaveProtocol.SaveOutcome | src/edgelite/config.py:956-1016 | of a save that no other crosses: a return leaves its content as file and as latest snapshot, an exception leaves the file and at most its own snapshot more, a crash leaves one of the two and never a file without its snapshot |
| SaveProtocol.FileIsLatestIff | src/edgelite/config.py:977-1013 | on any schedule of saves, failures and crashes, the file is the latest snapshot if and only if the save that replaced it last stored the same content as the one that recorded last |
| SaveProtocol.SameSaveIsLatest | src/edgelite/config.py:977-1013 | when one save did both last, its content is the file and the latest snapshot |
| SaveProtocol.SequentialReturn | src/edgelite/config.py:977-1016 | when saves do not overlap, each one that returns leaves its content as file and as latest snapshot |
| SaveProtocol.CrossingSavesDisagree | src/edgelite/config.py:977-1013 | nothing keeps two saves from crossing: both return, and the file is behind the latest snapshot |
| ConfigPersistence.SteadyIff | src/edgelite/config.py:681-719 | resolving placeholders leaves a tree alone if and only if every text is its own expansion and none in a list holds a placeholder |
| ConfigPersistence.HarmlessIsSteady | src/edgelite/config.py:694-719 | an environment without overrides leaves alone placeholders without default, naming no secret, whose variable cannot be set there |
| ConfigPersistence.SomeEnvironmentChanges | src/edgelite/config.py:681-719 | any other placeholder changes the tree in some environment that a process can have and that brings no override |
| ConfigPersistence.SnapshotUsedIff | src/edgelite/config.py:802-837 | loading depends on the snapshots if and only if the file exists and reading it raises an exception that is caught |
| PlaceholderReading.EveryText | src/edgelite/config.py:683-684 | every text is made of characters and of placeholders `${name}` and `${name:default}` |
| PlaceholderReading.TextExpands | src/edgelite/config.py:697-719 | a text expands piece by piece: a variable that is set wins, secret or not and default or not; one that is not gives its default, nothing when its name holds a word for a secret, and stays otherwise |
| PlaceholderReading.NamesSecretIff | src/edgelite/config.py:708-708 | a name is that of a secret if and only if one of the four words stands in it, in lower case |
| PlaceholderReading.HasPlaceholderIff | src/edgelite/config.py:683-693 | a text holds a placeholder if and only if some `${...}` with anything but a closing brace in it stands in it |
| PlaceholderReading.ListResolved | src/edgelite/config.py:688-693 | a list keeps, resolved and in order, exactly the items that are no texts with a placeholder left |
| PlaceholderReading.ReadsResolved | src/edgelite/config.py:839-850 | a value clear of the overrides, and not an encrypted secret, reads in the loaded configuration as its placeholders resolve |
| PlaceholderReading.TextLoaded | src/edgelite/config.py:839-850 | a text clear of the overrides reads in the loaded configuration as its pieces do |
| PlaceholderReading.VariableLoaded | src/edgelite/config.py:839-850 | the path that a variable names reads as the variable means, whatever the file holds there |
| PlaceholderReading.LoadStartsFrom | src/edgelite/config.py:802-850 | a load starts from the map in the file, from nothing when there is no file or it is empty or zero, from the latest snapshot when a caught exception is raised and it is a map with entries, and raises otherwise |
| ConfigPersistence.LoadAfterSave | src/edgelite/config.py:839-850 | loading what a save wrote, in the same environment with the overrides it brings, gives the configuration in effect if and only if whatever is not overridden is left alone by that environment: encryption, placeholders and merging together |
| ConfigPersistence.LoadAfterSaveIff | src/edgelite/config.py:839-850 | a save comes back in every environment that brings no override if and only if each placeholder stands outside lists, has no default, names no secret, and cannot be set in such an environment |
| ConfigPersistence.RecoveryIff | src/edgelite/config.py:817-837 | on any schedule of saves, failures and crashes from a file that is the latest snapshot, recovering a damaged file gives what an intact one would if and only if the save that replaced it last stored the same content as the one that recorded last, each being what the start held when there is none |
| ConfigPersistence.RecoveryAfterOneSave | src/edgelite/config.py:817-837 | with a single save, recovery gives it if and only if that save recorded nothing, or replaced the file, or stored what was there |
| ConfigStoring.ConfigStore.WriteFile | src/edgelite/config.py:993-1010 | the temporary file replaces the configuration file only when it holds the whole text; an exception at any point before leaves the file |
| ConfigStoring.ConfigStore.Content | src/edgelite/config.py:969-977 | what is written is the configuration with the overrides merged in and its secrets encrypted |
| ConfigStoring.ConfigStore.SaveConfig | src/edgelite/config.py:956-1016 | a return leaves file and latest snapshot equal to the merged, encrypted configuration; an exception leaves the file and at most one snapshot more; each is a run of the protocol |
| ConfigStoring.UpdateRefreshes | src/edgelite/config.py:1030-1041 | an update validates the section with the new values at the keys it has, puts the result in its place and leaves all else alone; it fails exactly when there is no such section or validation refuses |
| ConfigStoring.ConfigStore.UpdateConfigSection | src/edgelite/config.py:1019-1052 | success stores the validated section in memory, snapshot and file; any exception leaves memory and file as they were, with at most one snapshot more |
| ConfigStoring.ConfigStore.LoadConfig | src/edgelite/config.py:794-850 | loading gives the decrypted, resolved and merged content of the file, or of the latest snapshot when reading raises an exception that is caught, and raises when another escapes or the data is no map |
| HotReload.RunConsistent | src/edgelite/config_reload.py:140-169 | over every interleaving, a path has a stored hash if and only if it has a stored value, and both come from one content |
| HotReload.StaysUnwatched | src/edgelite/config_reload.py:232-281 | no single section brings back, or makes able to return, a file that is out and cannot return, but asking for it |
| HotReload.FailureIsRetried | src/edgelite/config_reload.py:272-287 | a content that failed leaves hash and value as they were on every run that follows, and every later round that comes to the file and finds that content tries it again, until the file is watched or unwatched or another content of it is applied |
| HotReload.InEffectNext | src/edgelite/config_reload.py:140-166 | the value in effect is what the content last watched or applied parses to, or its text, and becomes unknown only by unwatching, or by a watch or stop amid a scan of the file |
| HotReload.InEffectIsStored | src/edgelite/config_reload.py:272-280 | the value last watched or applied is the one that is stored or about to be |
| HotReload.ScanRecordsChain | src/edgelite/config_reload.py:339-353 | the old value in a scan record is the value of the watch or the new value of the scan record before it |
| HotReload.UnwatchLastsIff | src/edgelite/config_reload.py:593-610 | unwatching lasts through every continuation in which nobody asks for the file if and only if no watch task of it is queued, no change of it is being applied, and the round in progress has visited it or could take over no content for it |
| HotReload.UnwatchedUntilWatched | src/edgelite/config_reload.py:593-610 | a file that is out, has no task queued, is not being applied and is not still to be visited with a new content stays out until someone asks for it, whatever happens to others |
| HotReload.UnwatchUndone | src/edgelite/config_reload.py:234-281 | all three ways of failing are reached from the start: unwatching before the file's turn in a round, while its change is applied, and right after asking for it |
| HotReload.NextRoundVisitsAll | src/edgelite/config_reload.py:171-235 | after a round that was given up, the next one has every watched file before it, with the hash it has then |
| HotReload.NothingAfterStop | src/edgelite/config_reload.py:108-124 | after a stop, and until the next start, no file is watched, scanned or applied on any run, whatever tasks and rounds were under way |
| HotReload.AnsweredOnce | src/edgelite/config_reload.py:593-603 | on any run a file was asked for at least as often as its watch tasks have run and are still queued |
| HotReload.VisitCounts | src/edgelite/config_reload.py:236-287 | a visit counts a failure exactly when the file cannot be read or a new content of it fails, makes up a change exactly for a new content that does not, and otherwise only moves the round on |
| HotReload.HistoryIsRecent | src/edgelite/config_reload.py:411-417 | with a positive limit the history is the recent end of the log of all changes |
| HotReload.HistoryBoundedIff | src/edgelite/config_reload.py:411-417 | the history stays within its limit on every run if and only if the limit is positive |
| HotReload.FindsNewest | src/edgelite/config_reload.py:553-591 | rollback finds the newest entry of the id that has an old value, and fails if and only if there is none |
| HotReload.RollbackTwiceIff | src/edgelite/config_reload.py:553-591 | rollback appends the swapped entry, and a second one restores the newest value if and only if there was one, trimmed history or not |
| HotReload.RollbackIsOneStepIff | src/edgelite/config_reload.py:553-591 | wherever the newest change of an id stands in the history, rollback undoes it if and only if it has an old value, which a manual reload has not |
| HotReload.RollbackUndoesScan | src/edgelite/config_reload.py:335-348 | a scanned change is recorded under the type and path of its file: while no other change of the file comes and fewer than the limit of others, rollback appends exactly its inverse, from the parsed content back to the value in effect before the scan, if there was one, and otherwise goes on to the changes before |
| HotReload.ManualIsSkipped | src/edgelite/config_reload.py:485-523 | a manual reload enters the history without old value, and rollback goes past it |
| HotReload.CountsFailures | src/edgelite/config_reload.py:194-230 | the counter is the number of failures since the last applied change, and the signature is that of the last of them |
| HotReload.LogIsSqueezed | src/edgelite/config_reload.py:210-230 | the loud log entries between two applied changes are the failures with adjacent repeats removed |
| HotReload.BackoffMonotoneIff | src/edgelite/config_reload.py:183-192 | the waiting time never falls as failures mount if and only if the interval is between zero and the cap |
| HotReload.BackoffDoubles | src/edgelite/config_reload.py:183-192 | the waiting time starts at the interval and doubles with each further failure, up to a minute |
| HotReload.BackoffWithin | src/edgelite/config_reload.py:183-192 | it then stays between the interval and the cap |
| ConfigHotReloading.ConfigHotReloader.Start | src/edgelite/config_reload.py:89-138 | a first start watches the files of the scan in order and lets rounds begin; a second one changes nothing |
| ConfigHotReloading.ConfigHotReloader.StoreFile | src/edgelite/config_reload.py:148-166 | hash and parsed value are stored together, or the text when it does not parse |
| ConfigHotReloading.ConfigHotReloader.WatchFile | src/edgelite/config_reload.py:593-603 | asking for a file queues one more task for it, and does nothing when the reloader is not running |
| ConfigHotReloading.ConfigHotReloader.WatchTask | src/edgelite/config_reload.py:140-169 | a queued task is used up: a readable file is watched, an unreadable one changes nothing else |
| ConfigHotReloading.ConfigHotReloader.UnwatchFile | src/edgelite/config_reload.py:605-610 | both entries of the path go and nothing else |
| ConfigHotReloading.ConfigHotReloader.ComputeBackoffInterval | src/edgelite/config_reload.py:183-192 | the computed waiting time is the capped doubling that the theorems are about |
| ConfigHotReloading.ConfigHotReloader.RecordParseFailure | src/edgelite/config_reload.py:194-230 | a failure is counted, and enters the loud log if and only if it differs from the one before |
| ConfigHotReloading.ConfigHotReloader.RecordChange | src/edgelite/config_reload.py:411-417 | appending trims the history with the slice that the source uses |
| ConfigHotReloading.ConfigHotReloader.ScanFile | src/edgelite/config_reload.py:236-287 | one file of a round is visited once, compared with its hash at the start of the round, parsed and reloaded, as the state machine says |
| ConfigHotReloading.ConfigHotReloader.BeginRound | src/edgelite/config_reload.py:171-181 | a round begins only while the reloader runs and works on the hashes as they are at its start |
| ConfigHotReloading.ConfigHotReloader.EndRound | src/edgelite/config_reload.py:176-181 | a round in which asking for a file raises is given up, and the files left are not visited |
| ConfigHotReloading.ConfigHotReloader.RecordLoaded | src/edgelite/config_reload.py:339-348 | the change made up by the scan enters the history before hash and value are touched |
| ConfigHotReloading.ConfigHotReloader.ReloadConfig | src/edgelite/config_reload.py:485-523 | a manual reload appends a change without old value |
| ConfigHotReloading.ConfigHotReloader.Stop | src/edgelite/config_reload.py:108-124 | stopping abandons the round in progress and the queued tasks, and keeps files and history |
| ConfigHotReloading.ConfigHotReloader.CommitRecorded | src/edgelite/config_reload.py:274-281 | hash and value change together, and counter and signature are reset |
| ConfigHotReloading.ConfigHotReloader.CheckFile | src/edgelite/config_reload.py:236-287 | one file of an uninterrupted round takes its new content or stays as it is |
| ConfigHotReloading.ConfigHotReloader.Rollback | src/edgelite/config_reload.py:553-591 | the backward search succeeds if and only if an entry can be restored, and appends exactly the swapped entry |
| ConfigHotReloading.ConfigHotReloader.CheckChanges | src/edgelite/config_reload.py:232-287 | after an uninterrupted round every watched file has the hash and value of its new content, or both as before when it is absent, unreadable, unchanged or failing |
| ConfigDiff.DiffWalker.Walk | src/edgelite/api/config_version.py:291-304 | the recursion appends, for every order of keys, exactly the differences of the two trees under the current path |
| ConfigDiff.DiffWalker.WalkKeys | src/edgelite/api/config_version.py:294-297 | the loop over the keys of two maps appends exactly their differences, in whatever order the keys come |
| ConfigDiff.DiffWalker.WalkKey | src/edgelite/api/config_version.py:296-297 | the walk under one key appends exactly the differences below that key |
| ConfigDiff.ComputeDiff | src/edgelite/api/config_version.py:287-307 | every difference is listed once, and nothing else |
| ConfigDiff.DiffEmptyIff | src/edgelite/api/config_version.py:287-307 | nothing is reported if and only if the trees agree up to null map entries |
| ConfigDiff.NullEntryNotReported | src/edgelite/api/config_version.py:297-297 | a null entry is not told from a missing one |
| ConfigDiff.NoPrefixReported | src/edgelite/api/config_version.py:287-307 | no reported path is a prefix of another |
| ConfigDiff.ConverseInverts | src/edgelite/api/config_version.py:287-307 | the diff the other way round has the inverted operations at the same paths |
| ConfigDiff.PatchStep | src/edgelite/api/config_version.py:287-307 | patching one reported difference removes it from the diff and leaves every other |
| ConfigDiff.PatchGivesNew | src/edgelite/api/config_version.py:287-307 | patching all differences in any order gives the new tree, up to null entries of maps; where there are none it is that tree itself |
| ConfigDiff.InverseGivesOld | src/edgelite/api/config_version.py:287-307 | patching the new tree with the inverted differences gives the old one, up to null entries of maps; where there are none it is that tree itself |
| ConfigDiff.ParseDotPath | src/edgelite/api/config_version.py:297-297 | the dotted path of keys that are not empty and hold no dot determines the keys |
| ConfigDiff.DiffPatches | src/edgelite/api/config_version.py:287-307 | the reported entries, read by their dotted paths and rearranged at will, patch the old tree into the new and inverted the new into the old, up to null entries of maps; where there are none it is that tree itself |
| ModbusMapper.MapDeviceData | src/edgelite/_cython/modbus_mapper_py.py:24-63 | the loop leaves both arrays as the layout functions say, the input registers untouched, and returns the next offset |
| ModbusMapper.MapPoint | src/edgelite/_cython/modbus_mapper_py.py:28-61 | one round writes the words or the bit of one point if they fit, and moves on by its width |
| ModbusMapper.WidthIs | src/edgelite/_cython/modbus_mapper_py.py:28-61 | booleans, other kinds and integers with a 16-bit pattern take one place, floats and other integers with a 32-bit pattern two, and all other integers none |
| ModbusMapper.ReturnsTotal | src/edgelite/_cython/modbus_mapper_py.py:24-63 | the offset returned is the base plus one for each point that takes one place and two for each that takes two |
| ModbusMapper.IntWords | src/edgelite/_cython/modbus_mapper_py.py:43-59 | an integer is written as its shortest pattern, and not at all when it has none of 32 bits |
| ModbusMapper.OneOwner | src/edgelite/_cython/modbus_mapper_py.py:28-61 | a register belongs to at most one point, so no later point overwrites an earlier one |
| ModbusMapper.RegisterHolds | src/edgelite/_cython/modbus_mapper_py.py:39-59 | a register of a point holds the point's word if all of the point fits, and what it held otherwise: two words or none |
| ModbusMapper.RegisterFree | src/edgelite/_cython/modbus_mapper_py.py:28-61 | a register that no point owns keeps what it held |
| ModbusMapper.CoilHolds | src/edgelite/_cython/modbus_mapper_py.py:29-32 | the coil of a boolean point within the array holds its bit |
| ModbusMapper.CoilFree | src/edgelite/_cython/modbus_mapper_py.py:29-32 | every other coil keeps what it held |
| ModbusMapper.WordsInRange | src/edgelite/_cython/modbus_mapper_py.py:33-59 | every word written is a 16-bit register value |
| ModbusMapper.FloatDecodes | src/edgelite/_cython/modbus_mapper_py.py:33-42 | every 32-bit float pattern is recovered from its two words |
| ModbusMapper.UnsignedDecodesIff | src/edgelite/_cython/modbus_mapper_py.py:43-59 | unsigned decoding recovers an integer if and only if it is not negative |
| ModbusMapper.SignedDecodesIff | src/edgelite/_cython/modbus_mapper_py.py:43-59 | signed decoding recovers an integer if and only if it is below the sign bit of its width |
| ModbusMapper.SameWordsIff | src/edgelite/_cython/modbus_mapper_py.py:43-59 | two integers of one width share their words if and only if they are equal or differ by the modulus |
| ModbusMapper.MapsInTurn | src/edgelite/_cython/modbus_mapper_py.py:24-63 | mapping a concatenation is mapping its halves in turn from the returned offset |
| DataQuality.ComputeQuality | src/edgelite/api/data_quality.py:62-112 | counts are those of the positions with and without a number, and minimum, maximum, mean, variance, anomaly count and rates are those of the numbers in order |
| DataQuality.CollectNumbers | src/edgelite/api/data_quality.py:73-86 | the values are those at the ascending list of exactly the positions that hold a number, and the count of nulls that of all other positions |
| DataQuality.ValuesUnique | src/edgelite/api/data_quality.py:76-86 | the points determine those values |
| DataQuality.CountOf | src/edgelite/api/data_quality.py:93-95 | the loop counts the anomalies that the theorems are about |
| DataQuality.AnomalyByDeviation | src/edgelite/api/data_quality.py:91-95 | the squared test is the test against three standard deviations, for any non-negative square root of the variance |
| DataQuality.FewerThanOneInNine | src/edgelite/api/data_quality.py:88-95 | nine times the number of anomalies is strictly less than the number of values |
| DataQuality.AnomaliesBound | src/edgelite/api/data_quality.py:91-95 | Chebyshev's inequality for any centre: nine variances for every anomaly are less than the sum of squared deviations |
| DataQuality.CauchySchwarz | src/edgelite/api/data_quality.py:91-91 | the square of a sum of deviations is at most their number times the sum of their squares |
| DataQuality.Samuelson | src/edgelite/api/data_quality.py:91-91 | no squared deviation exceeds one less than the number of values times the variance |
| DataQuality.NoAnomalyUpToTen | src/edgelite/api/data_quality.py:88-95 | with ten values or fewer nothing is ever counted |
| DataQuality.LoneSpikeCounted | src/edgelite/api/data_quality.py:88-95 | a single one among zeros is counted exactly from eleven values on, so the bound of ten is tight |
| DataQuality.SpikesCounted | src/edgelite/api/data_quality.py:88-95 | spikes of both signs are all counted exactly when they are fewer than one in nine, so that bound is tight |
| DataQuality.AnomaliesRearranged | src/edgelite/api/data_quality.py:88-95 | the count is that of any rearrangement of the values |
| DataQuality.AnomaliesRescaled | src/edgelite/api/data_quality.py:88-95 | the count is that of the values on any other scale |
| LearnerCache.LearnerStore.GetOrCreateLearner | src/edgelite/api/anomaly_learner.py:105-117 | the id just accessed is newest and present, at most the oldest entry is evicted and only from a full cache |
| LearnerCache.OrderIsRecency | src/edgelite/api/anomaly_learner.py:105-117 | after any accesses the cache holds the hundred most recently accessed distinct ids, by last access |
| LearnerCache.RecencyCounts | src/edgelite/api/anomaly_learner.py:105-117 | the recency order lists every accessed id once |
| LearnerCache.LearnerKept | src/edgelite/api/anomaly_learner.py:105-117 | an id keeps its learner through accesses to others as long as it stays in the cache, and one that is out stays out |
| LearnerCache.SameLearnerIff | src/edgelite/api/anomaly_learner.py:105-117 | an access returns the learner of the access before to that id if and only if fewer than a hundred other ids came in between |
| PacketRecorder.Recorder.RecordPacket | src/edgelite/packet_recorder.py:56-83 | a packet takes the next number and enters the protocol's ring and the global one, as a step of the history |
| PacketRecorder.Recorder.GetBuffer | src/edgelite/packet_recorder.py:41-53 | a missing buffer is created empty and no other is touched |
| PacketRecorder.Recorder.ClearBuffer | src/edgelite/packet_recorder.py:86-100 | clearing empties one buffer and returns how many packets it held |
| PacketRecorder.BufferIsLast | src/edgelite/packet_recorder.py:36-100 | every buffer is the last thousand of what was appended to it since its last clearing |
| PacketRecorder.BufferIsEnd | src/edgelite/packet_recorder.py:36-100 | what was appended since the last clearing is what was evicted and then what the buffer holds, at most a thousand, and nothing is evicted from a buffer that is not full |
| PacketRecorder.NumbersCount | src/edgelite/packet_recorder.py:38-70 | packets are numbered from one on in the order they are recorded, whatever is cleared in between |
| PacketRecorder.OwnBufferStrict | src/edgelite/packet_recorder.py:36-83 | the buffer of a protocol is strictly ascending in packet numbers, whatever was recorded and cleared |
| PacketRecorder.GlobalBufferStrictIff | src/edgelite/packet_recorder.py:82-83 | the global buffer is strictly ascending if and only if no packet behind its first names the global buffer |
| PacketRecorder.GlobalIsSuffix | src/edgelite/packet_recorder.py:82-83 | without clearings, a protocol's packets in the global buffer are a suffix of its own buffer |
| PacketRecorder.StillHeld | src/edgelite/packet_recorder.py:36-100 | an old packet that is held later was held all along |
| PacketRecorder.SessionUpToDate | src/edgelite/api/debug.py:1503-1525 | a reader that remembers the last number sent never sends a packet twice and has sent every packet held at a poll, whatever is recorded and cleared in between |
| PacketRecorder.SentWasRecorded | src/edgelite/api/debug.py:1511-1525 | every packet sent was recorded into the buffer that is read |
| PacketRecorder.SentIff | src/edgelite/api/debug.py:1503-1525 | a packet recorded between two polls is sent if and only if the buffer still holds it at the second, so only what was evicted or cleared before it is missed |
| VersionStore.VersionIdInjective | src/edgelite/drivers/opcua_config_version.py:31-32 | an id determines device and number, even for devices whose name holds `_v` and digits |
| VersionStore.NextIdFresh | src/edgelite/drivers/opcua_config_version.py:31-33 | the id of the next save is never in use |
| VersionStore.RunHolds | src/edgelite/drivers/opcua_config_version.py:26-62 | between two stops the store holds exactly the versions saved, numbered from one, none overwritten |
| VersionStore.Restores | src/edgelite/drivers/opcua_config_version.py:53-58 | every version saved since the last stop is restored with the configuration that was saved |
| VersionStore.OpcUaConfigVersionManager.SaveVersion | src/edgelite/drivers/opcua_config_version.py:26-41 | saving returns the next number and adds that version to those saved |
| VersionStore.OpcUaConfigVersionManager.GetVersion | src/edgelite/drivers/opcua_config_version.py:43-45 | an id gives the version saved under it, and nothing when none was |
| VersionStore.OpcUaConfigVersionManager.Stop | src/edgelite/drivers/opcua_config_version.py:60-62 | stopping empties the store |
| VersionStore.OpcUaConfigVersionManager.RestoreVersion | src/edgelite/drivers/opcua_config_version.py:53-58 | an id in use restores its configuration, any other nothing |
| VersionStore.OpcUaConfigVersionManager.ListVersions | src/edgelite/drivers/opcua_config_version.py:47-51 | the versions at the ascending list of exactly the places that hold one of the device, or of all places when none is given |

## Left out

- The regular-expression engine: each pattern that the code uses is a function of its own; `\s`, stripping and `\d` cover all of Unicode 14, `\b` in front of `const` only ASCII letters, digits and the underscore.
- Lower-casing is a parameter of the environment.
- `const URL` objects outside the printed grammar are covered by the method contracts only; the round trip speaks of identifier keys distinct among siblings, of literals, arrow functions that return one, and values of other kinds without quote, brace or comma, and of comments without quote, brace or `key:`.
- `_parse_ts_value_to_path`, the extraction of backend routes from syntax trees, and the comparison of the two route sets.
- Nested dictionaries are values: `_set_nested_value`, `_resolve_env_vars` and the encryption loops give a new tree instead of changing shared ones, so aliasing between trees is not captured.
- Scalars of a configuration are integers and texts; list elements are compared as a whole, as the source does.
- Several values that Python takes for false are one: `0`, `0.0` and `False` are the scalar zero.
- A snapshot store that cannot be read counts as empty.
- The environment of a process stays the same between saving and loading; what a `.env` file adds is part of it.
- LoadAfterSave: asks that no listed secret looks encrypted unless decryption would leave it so, as the laws of the secret manager do.
- services/config_version.py is not part of this model: saving a snapshot either records the content or raises, possibly after recording it.
- Configuration sections that are plain texts or dictionaries without a model raise through the `validate` parameter.
- `reload_from_dict`, change callbacks, development-mode secrets and the production checks at the end of `load_config`.
- SaveOutcome: speaks of a save that no other crosses, since `CrossingSavesDisagree` shows what a crossing one may do; saves that cross are covered by `AlwaysWhole`, `StaysSaved` and `FileIsLatestIff`.
- Writing the temporary file fails or succeeds as a whole at each character; a crash may leave that file behind, which the model does not list.
- Hash collisions: equal hashes count as unchanged content, as in the source; the error signature is the triple that the source hashes.
- Watched paths that begin with `_old_`, which would collide with the reloader's own keys.
- The configuration type that a path stands for is a parameter of the reloader; backups, callbacks and log texts are left out. `stop` is one event, its last section: a watch task that still runs while it awaits another counts as run before it.
- The locals of a round in progress are fields of the reloader, so that rounds can be interrupted between their atomic sections.
- ComputeQuality: does not model rounding, NaN or infinities; arithmetic is over the reals, and the variance is returned in place of its square root.
- Backoff: `2**n` is exact; its overflow as a float is not modelled.
- MapDeviceData: base addresses are natural numbers and the arrays are distinct; packing a float that does not fit in 32 bits is not modelled.
- The direction, device, content and time of a packet are one payload.
- Versions hold their configuration as a value, so later changes by the caller to a dictionary it passed in are not captured.
- FastAPI routes, databases, drivers, authentication and start-up.
