# Windows Context Menu Creator — a verified model of its core

The application registers custom entries in the Windows Explorer context
menu. An entry (`MenuEntry`) has a key name, a display name, an executable,
an optional icon, a command template and a list of scopes. A scope is a
place in the menu: all files, directories, directory backgrounds, or chosen
file extensions.

This project models three parts of the application:

- **The configuration layer** (`app/config.py`). It covers entry
  construction with its normalisation, and the rendering of the command
  line from the template.
- **The registry manager** (`app/registry_manager.py`). It is the only
  component that touches the registry, and the project models:
  - where each scope lives under `HKEY_CLASSES_ROOT`;
  - how an entry fans out over its scopes and extensions;
  - how `root\key` and `root\key\command` are written and deleted;
  - what dry-run mode logs instead of writing;
  - how the Windows 11 classic-menu marker under `HKEY_CURRENT_USER` is
    set, cleared and probed.
- **The HTTP API handlers** (`app/server.py`). Listing, reading, adding,
  removing and editing entries, and the Windows 11 toggle, all go through
  the manager. The log handlers read, list, clear, restore and delete the
  log file and its backups.

The files, one module each:

| file | module | what it holds |
|---|---|---|
| `results.dfy` | `Results` | `Option` and `Result` |
| `seqs.dfy` | `Seqs` | one sequence fact the proofs invoke at chosen terms |
| `config.dfy` | `Config` | `TargetScope`, `MenuEntry`, `__post_init__` as `NewMenuEntry`, the `str.format` subset of `build_command` |
| `winreg.dfy` | `WinReg` | the registry as a tree of keys with string values, and a `Registry` class whose methods are the `winreg` calls the manager makes |
| `registry_manager.dfy` | `RegistryManager` | the scope maps, the fan-out, the specification functions of a whole `add_entry`/`remove_entry`, and the `Manager` class (dry-run flag, registry, log of planned lines) with its methods |
| `paths.dfy` | `Paths` | Windows `pathlib` parsing, joining and printing, and resolution of `..` |
| `server.dfy` | `Server` | scope names, request bodies, where an entry is listed, and the `Api` class with a method per entry handler |
| `log_store.dfy` | `LogStore` | the log directory as a map from resolved locations to file text, and the `LogFiles` class with the log handlers |

Every state-changing method is specified against a function of the state
before the call. These reference definitions carry no contract of their
own; the lemmas in the "## Model" table state what they promise.

| function | source | what it defines |
|---|---|---|
| Config.Format | app/config.py:59-62 | `str.format` on a template with the fields `exe_path` and `target` |
| Config.BuildCommand | app/config.py:57-62 | `build_command`: the template rendered with the slash-normalised executable |
| RegistryManager.Written | app/registry_manager.py:59-66 | the registry after `_write_entry` at each location of a fan-out, in order |
| RegistryManager.EraseAll | app/registry_manager.py:74-81 | the status and registry after `_delete_entry` at each location, stopping at the first refusal |
| RegistryManager.AddStep | app/registry_manager.py:53-68 | the status and registry after a whole `add_entry` |
| RegistryManager.RemoveStep | app/registry_manager.py:70-83 | the status and registry after a whole `remove_entry` |
| RegistryManager.RestoredModern | app/registry_manager.py:232-254 | the registry after a live `restore_modern_menu` |
| Server.Presence | app/server.py:214-217 | the static scopes whose listing holds the key, in probe order |
| Server.PlanEdit | app/server.py:234-275 | the edit handler's scan and plan: 404, the command error, or the entries to remove and re-add |
| LogStore.Cleared | app/server.py:366-378 | the files after `clear_logs` at a time stamp |
| LogStore.Restored | app/server.py:380-397 | the reply and files after `restore_logs` under a given guard; removing the live log fails |
| LogStore.DeletedBackup | app/server.py:399-409 | the reply and files after `delete_backup` under a given guard; removing the live log fails |

The lemmas then prove what those functions promise. For example, after an
add the entry is listed under exactly its static scopes, and it reads back
what was written. A remove leaves it listed nowhere.

Elevation and the files that exist are the `Host` parameter. The clock
reading used for a backup name is the `stamp` parameter. The `TEMP`
directory is the `logs` parameter.

## Model

| member | source | states |
|---|---|---|
| Config.NewMenuEntry | app/config.py:64-78 | Construction fails exactly when EXTENSION is among the scopes and the extension list is empty, and the error names the key. Otherwise it keeps the key, display name, template and scopes. It replaces every `/` by `\` in the executable, and in the icon when the icon is truthy. A falsy icon is kept as it is. Each extension gets a leading dot when it lacks one, in the same order and number. The result is normalised. |
| Config.ToBackslashes | app/config.py:71 | Every `/` becomes `\`, every other character is kept, and no `/` remains. |
| Config.ToBackslashesKeeps | app/config.py:71 | The replacement changes nothing in a string without `/`. |
| Config.NewMenuEntryIdempotent | app/config.py:64-78 | Constructing an already normalised entry again gives the same entry. |
| Config.DefaultsConstruct | app/config.py:49-55 | An entry built from the field defaults always constructs. It has scopes `[ALL_FILES]`, no extensions, no icon and the template `"{exe_path}" "{target}"`. |
| Config.FieldLength | app/config.py:59-62 | A replacement field's name runs up to the first `}`, or to the end of the template when there is none. |
| Config.FormatLiteral | app/config.py:59-62 | `str.format` copies text without braces through unchanged. |
| Config.FormatField | app/config.py:59-62 | `{exe_path}` is replaced by the executable and `{target}` by the placeholder. |
| Config.FormatTwoFields | app/config.py:59-62 | A template of literal text around the two fields renders to the text with both values substituted. |
| Config.FormatDefaultTemplate | app/config.py:52-62 | The default template renders to `"<exe>" "<target>"`. |
| Config.FormatOutcomeIndependent | app/config.py:59-62 | Whether rendering fails, and with which error, does not depend on the executable or the placeholder. So the first render decides for all the scopes. |
| Config.BuildCommandOfNormalized | app/config.py:57-62 | For a constructed entry the slash replacement in `build_command` changes nothing, so the command is the template rendered with the stored executable. |
| Config.BuildCommandDefault | app/config.py:52-62 | A constructed entry with the default template renders to `"<exe>" "<placeholder>"`. |
| WinReg.WithKey | app/registry_manager.py:160-163 | After `CreateKeyEx` the key exists (with its ancestors) and no value changed. |
| WinReg.AfterDelete | app/registry_manager.py:187-197 | After `DeleteKey` the key is gone unless it has subkeys, and no key was added. |
| WinReg.ChildIff | app/registry_manager.py:98-100 | The names `EnumKey` enumerates under a key are exactly those of its direct subkeys. |
| WinReg.ChildrenOfMissing | app/registry_manager.py:97-102 | Enumerating a key that does not exist yields no name. |
| WinReg.WithKeyValid | app/registry_manager.py:160-163 | Creating a key keeps the registry a tree: every key's parent exists and values live on keys. |
| WinReg.WithValueValid | app/registry_manager.py:164-173 | Setting a value on an open key keeps the registry a tree. |
| WinReg.AfterDeleteValid | app/registry_manager.py:187-197 | Deleting a key keeps the registry a tree, because a key with subkeys is refused. |
| WinReg.Registry.constructor | app/registry_manager.py:46-49 | The registry starts in the given state, which is a tree: every key's parent is a key and values live on keys. |
| WinReg.Registry.CreateKeyEx | app/registry_manager.py:160-163 | The new state is `WithKey` of the old one, and a tree stays a tree. |
| WinReg.Registry.SetValueEx | app/registry_manager.py:164-173 | The new state is the old one with that value set, and a tree stays a tree. |
| WinReg.Registry.DeleteKey | app/registry_manager.py:187-197 | The outcome is missing, refused with subkeys, or deleted, and the new state is `AfterDelete` of the old one. A tree stays a tree. |
| RegistryManager.RootsDistinct | app/registry_manager.py:20-25 | Distinct static scopes have distinct roots. No dotted extension's root is a static root. No root lies directly under another. |
| RegistryManager.ExtensionTargetsSnoc | app/registry_manager.py:61-63 | The extension loop visits `<ext>\shell` for each extension, in order, with a `%1` placeholder. |
| RegistryManager.TargetsMembers | app/registry_manager.py:59-66 | A location is in the fan-out exactly when a static scope of the entry names it, or when EXTENSION is a scope and one of the extensions names it. |
| RegistryManager.TargetsPrefix | app/registry_manager.py:59-66 | The locations of the first scopes come first in the fan-out. |
| RegistryManager.TargetsSnoc | app/registry_manager.py:59-66 | Visiting one more scope appends exactly that scope's locations. |
| RegistryManager.TargetsOfScope | app/registry_manager.py:59-66 | A scope that has locations makes the whole fan-out non-empty. |
| RegistryManager.TargetForm | app/registry_manager.py:20-33 | Each location is a static root with its `_SCOPE_PLACEHOLDER`, or an extension root with `%1`. |
| RegistryManager.TargetsCoherent | app/registry_manager.py:20-33 | Two visits to the same root use the same placeholder. Different roots never overlap, so no write clobbers another location's keys. |
| RegistryManager.WrittenSnoc | app/registry_manager.py:59-66 | Writing one more location applies one more `_write_entry` to the store left by the earlier ones. |
| RegistryManager.WrittenKeys | app/registry_manager.py:160-173 | The keys after a fan-out of writes are those before plus each `root\key` and `root\key\command` with their ancestors. |
| RegistryManager.WrittenUntouched | app/registry_manager.py:160-173 | A value slot the writes do not name keeps its presence and its data. |
| RegistryManager.KeyPathsApart | app/registry_manager.py:147-148 | Distinct roots that do not nest give distinct `root\key` and `root\key\command` paths. |
| RegistryManager.WriteOneHits | app/registry_manager.py:160-173 | One write sets the default value to the display name, sets `Icon` when the icon is truthy, and sets the command's default value to the rendered command. |
| RegistryManager.WriteOneFrame | app/registry_manager.py:160-173 | One write leaves every other existing value unchanged. |
| RegistryManager.WrittenAt | app/registry_manager.py:59-66 | After the whole fan-out, every visited location holds the display name, the icon and its own rendered command. |
| RegistryManager.AddedKeysHas | app/registry_manager.py:160-173 | A key is created by the fan-out exactly when it is a prefix of some visited `root\key` or `root\key\command`. |
| RegistryManager.RootChildCreated | app/registry_manager.py:147-148 | `root\key` is created below root `rs` only by a write at `rs` itself. |
| RegistryManager.WrittenListed | app/registry_manager.py:53-66 | After the fan-out, the key is listed under a static scope exactly when it was listed there before or that scope is one of the entry's scopes. |
| RegistryManager.WrittenValid | app/registry_manager.py:53-66 | A fan-out of writes keeps the tree invariant. |
| RegistryManager.EraseAllSnoc | app/registry_manager.py:74-81 | One more delete runs only when the earlier ones all returned. |
| RegistryManager.EraseAllStops | app/registry_manager.py:74-81 | Once a delete raises, the later locations are not touched. |
| RegistryManager.EraseAllFrame | app/registry_manager.py:177-197 | Deletes remove only the targeted `root\key` and `root\key\command`. A run that finishes removes all of them. Every other key keeps its values. |
| RegistryManager.EraseAllAbsent | app/registry_manager.py:187-197 | When none of the targeted keys exists, every delete is skipped and nothing changes. |
| RegistryManager.EraseAllIdempotent | app/registry_manager.py:70-83 | Removing an entry a second time changes nothing. |
| RegistryManager.EraseAllValid | app/registry_manager.py:177-197 | A fan-out of deletes keeps the tree invariant. |
| RegistryManager.AddStepValid | app/registry_manager.py:53-68 | A whole `add_entry` keeps the registry a tree. |
| RegistryManager.RemoveStepValid | app/registry_manager.py:70-83 | A whole `remove_entry` keeps the registry a tree. |
| RegistryManager.ReadEntryDetails | app/registry_manager.py:104-135 | Details exist exactly when the scope has a static root and the key's default value exists. The display name is the key's default value. The icon and the command are read from `Icon` and from the command subkey, and are absent when they are missing. |
| RegistryManager.ReadAfterWrite | app/registry_manager.py:104-135 | Reading a static scope after an add returns the display name, the icon (when truthy) and the command rendered with that scope's placeholder. |
| RegistryManager.IsClassicMenuForced | app/registry_manager.py:205-212 | Reports true exactly when the marker key's default value exists and is empty. |
| RegistryManager.ForcedClassic | app/registry_manager.py:224-228 | After a live `force_classic_menu` the classic menu reads as forced. |
| RegistryManager.ForcedClassicValid | app/registry_manager.py:224-228 | Forcing the classic menu keeps the registry a tree. |
| RegistryManager.RestoredModernValid | app/registry_manager.py:232-254 | Restoring the modern menu keeps the registry a tree. |
| RegistryManager.Before | app/safety.py:62 | `s.split(c)[0]`: the longest prefix without `c`, followed by `c` or by the end. |
| RegistryManager.BeforeConcat | app/safety.py:62 | Splitting `a + b`, where `b` starts with `c` and `a` has no `c`, gives `a`. |
| RegistryManager.Manager.constructor | app/registry_manager.py:46-49 | The manager starts with the given dry-run flag and registry and an empty dry-run log. |
| RegistryManager.Manager.WriteEntry | app/registry_manager.py:139-175 | The call fails, changing nothing, exactly when the template does not render. In dry-run mode it appends the create, default, icon-when-truthy and command lines and leaves the registry alone. Otherwise it performs `WriteOne`. |
| RegistryManager.Manager.DeleteEntry | app/registry_manager.py:177-197 | In dry-run mode it logs one delete line and changes nothing. Otherwise the status and the registry are those of deleting `command` and then the key, skipping missing ones. |
| RegistryManager.Manager.WriteNext | app/registry_manager.py:59-66 | One step of the write loop extends the fan-out done so far by one location. The first step is the only one that can fail, and it changes nothing. |
| RegistryManager.Manager.WriteExtensions | app/registry_manager.py:60-63 | The extension loop extends the fan-out by every extension root, in order. |
| RegistryManager.Manager.WriteScope | app/registry_manager.py:59-66 | One scope of the write loop extends the fan-out by that scope's locations. |
| RegistryManager.Manager.WriteAll | app/registry_manager.py:59-66 | The loop fails exactly when there is a location to write and the template does not render, and then nothing has changed. Otherwise the registry is `Written` over all locations, or, in dry-run mode, the planned lines for all locations were logged. |
| RegistryManager.Manager.AddEntry | app/registry_manager.py:53-68 | Status and registry are `AddStep`: not elevated, executable missing and icon source missing are refused in that order, then a template that does not render, then all locations are written. The dry-run log grows by `AddLog`. A tree stays a tree. |
| RegistryManager.Manager.DeleteNext | app/registry_manager.py:74-81 | One step of the delete loop extends the deletes done so far by one location. |
| RegistryManager.Manager.DeleteExtensions | app/registry_manager.py:75-78 | The extension loop deletes under every extension root, in order, and stops at the first refusal. |
| RegistryManager.Manager.DeleteScope | app/registry_manager.py:74-81 | One scope of the delete loop deletes that scope's locations and stops at the first refusal. |
| RegistryManager.Manager.DeleteAll | app/registry_manager.py:74-81 | In dry-run mode one delete line is logged per location and nothing changes. Otherwise status and registry are `EraseAll` over all locations. |
| RegistryManager.Manager.RemoveEntry | app/registry_manager.py:70-83 | Status and registry are `RemoveStep`: refused when not elevated, otherwise every location is deleted (or logged in dry-run mode). A tree stays a tree. |
| RegistryManager.Manager.ListEntries | app/registry_manager.py:85-102 | Without an extension, EXTENSION raises. Otherwise the names are distinct and are exactly the subkeys of the scope's root. On a registry that is a tree, a missing root gives no names. |
| RegistryManager.Manager.ForceClassicMenu | app/registry_manager.py:214-230 | In dry-run mode one line is logged and nothing changes. Otherwise the registry is `ForcedClassic` of the old one. A tree stays a tree. |
| RegistryManager.Manager.RestoreModernMenu | app/registry_manager.py:232-254 | In dry-run mode one line is logged. Otherwise a marker with subkeys raises and changes nothing, and in every other case the marker and then its empty parent are deleted and the classic menu no longer reads as forced. A tree stays a tree. |
| Paths.Segments | app/server.py:387 | Splitting a name at separators gives at least one segment. |
| Paths.SegmentsNoSep | app/server.py:387 | No segment holds a separator. |
| Paths.SegmentsOfPlain | app/server.py:387 | A name without separators is one segment. |
| Paths.SegmentsConcat | app/server.py:387 | Splitting at a separator between two pieces splits each piece on its own. |
| Paths.KeptParts | app/server.py:387 | `pathlib` drops empty and `.` parts and keeps the rest in order. |
| Paths.Parse | app/server.py:387 | Every part of a parsed path is a kept name without separators. |
| Paths.JoinPartsConcat | app/server.py:388 | Printing concatenated parts puts one `\` between the two groups. |
| Paths.CollapsePlain | app/server.py:40-44 | Parts without `..` resolve to themselves. |
| Paths.CollapseSnoc | app/server.py:387 | Resolution takes one part at a time. |
| Paths.JoinRelativeStr | app/server.py:387-388 | A relative name joined to a base prints as the base's text, `\`, then the name's parts. |
| Paths.ParseTwo | app/server.py:387 | `a\b` with two plain names parses to those two parts. |
| Paths.ParsePlain | app/server.py:387 | A plain file name parses to itself. |
| Server.ScopeStrRoundTrip | app/server.py:48-55 | `_SCOPE_TO_STR` and `_SCOPE_FROM_STR` are inverse to each other. |
| Server.ParseScopes | app/server.py:196 | Mapping scope names succeeds exactly when every name is known. The result then has one scope per name. Otherwise the first unknown name is reported. |
| Server.ParseScopeNames | app/server.py:48-55 | Parsing the names of any scopes gives those scopes back. |
| Server.PresentIn | app/server.py:215-217 | Every scope collected is static and actually lists the key. |
| Server.PresenceExplicit | app/server.py:215-217 | The collected scopes are ALL_FILES, DIRECTORY and DIR_BACKGROUND, each present when it lists the key. |
| Server.PresenceSpec | app/server.py:215-217 | A scope is collected exactly when it is static and lists the key, and the collected scopes are in probe order. |
| Server.OnlyInOrder | app/server.py:215-217 | Three optional scopes in probe order are a strictly ordered list of exactly the present ones. |
| Server.FirstIndexFacts | app/server.py:154-165 | The first scope a key is listed under comes before every other scope that lists it, and it exists exactly when the key is listed somewhere. |
| Server.FirstDetailsSnoc | app/server.py:178-180 | The get handler keeps the details of the first scope that has them. |
| Server.DetailsImplyListed | app/server.py:178-183 | A scope that has details for a key lists the key. |
| Server.FirstDetailsOfPresence | app/server.py:238-245 | Probing only the scopes that list the key finds the same first details as probing all three. |
| Server.HasKeySnoc | app/server.py:166-172 | Appending a record adds exactly its key to the keys seen. |
| Server.AppendRecord | app/server.py:156-172 | Appending the record of a newly met key keeps the list handler's invariants: keys distinct, each record built from its first scope, and records ordered by first scope. |
| Server.ListedAfterAdd | app/server.py:149-174 | After an add under ALL_FILES the list handler shows the key first under ALL_FILES, with the written display name, `%1` command and icon. |
| Server.EntryFromBody | app/server.py:193-205 | Scope names are parsed first, then the three required keys are read in order, then the entry is constructed. In each case the first failure, as a 400 error, is the result. A success carries the body's key, display name, template (defaulted), scopes (defaulted to `all_files`) and is normalised. |
| Server.EntryFromBodyOf | app/server.py:193-205 | Sending a constructed entry's fields to the add handler reconstructs exactly that entry. |
| Server.SpaceRun | app/server.py:255 | The leading run of whitespace. |
| Server.WordRun | app/server.py:255 | The leading run of non-whitespace. |
| Server.CommandExe | app/server.py:251-255 | A quoted command yields the text up to the next quote. An unquoted one yields its first whitespace-separated word, never empty. An empty one yields "". A command of whitespace only yields nothing, the `IndexError`. |
| Server.CommandExeOfDefault | app/server.py:251-253 | The executable of a command rendered from the default template is read back intact. |
| Server.CommandExeOfEntry | app/server.py:251-253 | Editing an entry written with the default template keeps its executable. |
| Server.RemovalEntry | app/server.py:223-228 | The entry built only for removal has the key, the given scopes, no extensions, and always constructs. |
| Server.PlanFrom | app/server.py:250-275 | With no command the handler fails, and a blank command fails. Otherwise the entry to remove has the key and the listed scopes. The entry to add has the key, the default template and the body's display name or the stored one. |
| Server.NextEntry | app/server.py:265-273 | The entry to add keeps the key, takes the default template, and takes the body's display name and executable or the stored ones (with slashes replaced). It fails only for an unknown scope name or an EXTENSION scope without extensions. |
| Server.RemovalClears | app/server.py:211-232 | A removal that completes leaves the key listed under no scope. |
| Server.NotListedAfter | app/server.py:211-232 | Once the targeted keys are gone, no static scope lists the key. |
| Server.ErasedPathsHas | app/registry_manager.py:177-197 | Every visited location's `root\key` is one of the paths the deletes aim at. |
| Server.EditRemovalClears | app/server.py:256-264 | The edit handler's removal, when it completes, leaves the key listed nowhere. |
| Server.ListedExactlyAfterWrite | app/server.py:193-207 | For a key listed nowhere, after the writes it is listed under exactly the entry's static scopes. |
| Server.ListedExactlyAfterAdd | app/server.py:193-207 | An add that completes lists a new key under exactly its static scopes. |
| Server.EditListsExactly | app/server.py:234-279 | An edit whose removal and add both complete lists the key under exactly the new static scopes. |
| Server.EditNextKey | app/server.py:265-273 | The re-added entry keeps the edited key and is normalised. |
| Server.Api.constructor | app/server.py:64-72 | The handlers share the given manager. |
| Server.Api.PresentScopes | app/server.py:214-217 | The scope loop returns exactly `Presence` of the current registry. |
| Server.Api.Consider | app/server.py:156-172 | Meeting one key of a scope's list adds its record only the first time and keeps the list invariants. |
| Server.Api.CollectScope | app/server.py:154-172 | After a scope, the keys seen are exactly those first listed at that scope or earlier. |
| Server.Api.ListAll | app/server.py:149-174 | The list holds one record per key listed under any static scope, built from the first scope that lists it, ordered by that scope. |
| Server.Api.GetEntry | app/server.py:176-191 | 404 when no scope has details. Otherwise the record is built from the first scope with details and carries every static scope that lists the key. |
| Server.Api.AddEntry | app/server.py:193-209 | A body that does not make an entry is a 400 and changes nothing. Otherwise the reply, the registry and the dry-run log are those of the manager's `AddStep`. A tree stays a tree. |
| Server.Api.RemoveEntry | app/server.py:211-232 | 404 when the key is listed nowhere, changing nothing. Otherwise the manager removes the placeholder entry from exactly the listed scopes. A tree stays a tree. |
| Server.Api.LocateEntry | app/server.py:238-245 | The edit handler's scan gives the listed scopes and the details of the first of them that has any. |
| Server.Api.EditEntry | app/server.py:234-279 | A failed plan is replied and changes nothing. Otherwise the old scopes are removed. If that raises, or the new entry does not construct, the removal stands. Otherwise the new entry is added, and the log holds both. A tree stays a tree. |
| Server.Api.ToggleWin11 | app/server.py:305-329 | `enable` forces, `disable` restores, and anything else flips the current state. The reply is the state read afterwards. In dry-run mode only the planned line is logged. A refused restore is a 400 and changes nothing. A tree stays a tree. |
| LogStore.BreakAt | app/server.py:337 | The first line break, or the end of the text. |
| LogStore.SplitLines | app/server.py:337 | `splitlines` gives lines without breaks, none exactly for empty text. |
| LogStore.BreakAtLine | app/server.py:337 | A line followed by `\n` ends at that `\n`. |
| LogStore.SplitJoined | app/server.py:337 | Splitting lines that were joined with line ends gives them back. |
| LogStore.JoinedConcat | app/server.py:392-393 | Joining two groups of lines is concatenating their texts. |
| LogStore.AppendedLines | app/server.py:392-393 | Appending one file's text to another's gives the lines of both, in order. |
| LogStore.LastTen | app/server.py:342 | `lines[-10:]`: the last ten lines, or all when there are fewer. |
| LogStore.BelowIrreflexive | app/server.py:354 | The name order is strict. |
| LogStore.BelowTransitive | app/server.py:354 | The name order is transitive. |
| LogStore.BelowTotal | app/server.py:354 | The name order is total. |
| LogStore.InsertDescending | app/server.py:354 | Insertion adds one element. |
| LogStore.InsertDescendingSorted | app/server.py:354 | Inserting a new name into a descending list keeps it descending and adds exactly that name. |
| LogStore.InsertedElements | app/server.py:354 | A list grown by one name holds the old names and that one. |
| LogStore.StampedName | app/server.py:372-373 | The backup name ends in `.bak`, so the backup glob finds it. |
| LogStore.StampedNamePlain | app/server.py:372-373 | A time-stamped backup name is a plain file name. |
| LogStore.ChildLocation | app/server.py:43 | The live log resolves to the log directory plus `context_menu.log`. |
| LogStore.BackupLocation | app/server.py:44 | A backup resolves to the backup directory plus its name. |
| LogStore.BackupIsNotLog | app/server.py:43-44 | No backup sits where the live log is. |
| LogStore.BackupNamesIff | app/server.py:340 | The backups are exactly the `.bak` files directly in the backup directory. |
| LogStore.GetLogs | app/server.py:333-347 | The reply holds the last ten lines (all when fewer), the total line count (0 when the file is missing) and the number of backups. |
| LogStore.PlainNameStaysInBackups | app/server.py:387-388 | With the corrected guard, the file restored or deleted is directly in the backup directory and is never the live log. |
| LogStore.PlainNameIsStricter | app/server.py:387-388 | Every name the corrected guard accepts, the server's guard accepts too. |
| LogStore.ClimbingNameText | app/server.py:387-388 | For any plain name, `..\<name>` joined to the backup directory prints with the backup directory as its prefix. |
| LogStore.ClimbingNameTarget | app/server.py:387 | That joined path resolves to `<name>` in the log directory, outside the backup directory. |
| LogStore.LexicalAdmitsLiveLog | app/server.py:387-406 | The server's guard admits `..\context_menu.log`, which resolves to the live log. The logger holds that file open, so deleting it fails with 400 and changes nothing. Restoring it appends the log to itself and then fails with 400. |
| LogStore.LexicalRemovesSibling | app/server.py:387-406 | The server's guard admits `..\<name>` for any other file in the log directory. That file is no backup and is not held open. Deleting it succeeds, removes that file and leaves the listed backups unchanged. Restoring it succeeds, appends the file to the live log and removes it. |
| LogStore.RestoreAppendsLines | app/server.py:380-397 | Under the corrected guard (`PlainName`), restoring an accepted backup succeeds. The live log then holds its old lines followed by the backup's, and the backup is gone. With the server's guard, `..\context_menu.log` doubles the log and gives 400 (see `LexicalAdmitsLiveLog`). |
| LogStore.RestoreFrame | app/server.py:380-397 | A restore touches only the live log and the restored backup. |
| LogStore.ClearKeepsLines | app/server.py:366-378 | Clearing a non-empty log empties it and makes a stamped backup with all its lines. |
| LogStore.ClearThenRestore | app/server.py:366-397 | Under the corrected guard (`PlainName`), restoring the backup a clear just made gives back the original files, minus that backup. |
| LogStore.ClearEmptyUnchanged | app/server.py:370 | Clearing a missing or empty log changes nothing. |
| LogStore.DeleteRemovesOnlyBackup | app/server.py:399-409 | Under the corrected guard (`PlainName`), a delete succeeds exactly when the guard accepts the name. It then removes just that backup, which is no longer listed, and the log keeps its lines. A refused delete changes nothing. With the server's guard, a file outside the backup directory can be the one removed (see `LexicalRemovesSibling`). |
| LogStore.LogFiles.constructor | app/server.py:40-44 | The handlers start on the given log directory, guard and files. |
| LogStore.LogFiles.ListBackups | app/server.py:349-364 | Every backup, each once, newest name first, with its line count. |
| LogStore.LogFiles.SortDescending | app/server.py:354 | `sorted(…, reverse=True)` of a set of names: descending, and holding exactly those names. |
| LogStore.LogFiles.ClearLogs | app/server.py:366-378 | The files afterwards are `Cleared` at the given time stamp. |
| LogStore.LogFiles.RestoreLogs | app/server.py:380-397 | The reply and the files afterwards are `Restored` under the class's guard: 400 without a filename, 404 for a name not accepted, and 400 after the append when the name resolves to the live log, which is held open. With `Lexical` this is the server as written, with `PlainName` the corrected server. |
| LogStore.LogFiles.DeleteBackup | app/server.py:399-409 | The reply and the files afterwards are `DeletedBackup` under the class's guard: 404 for a name not accepted, and 400 with nothing changed when the name resolves to the live log, which is held open. With `Lexical` this is the server as written, with `PlainName` the corrected server. |

## Left out

- The registry, the file system and `sorted` treat names case-insensitively or by code point in ways the model does not. Keys, paths and names are compared exactly, and backup names are ordered by `Below`, a code-point order.
- A key name or an extension that itself holds `\` is one registry segment here. The real API splits it into nested keys.
- `str.format` is modelled for plain text, `{{`, `}}` and the fields `{exe_path}` and `{target}`. Any other field, named or positional (`{}`, `{0}`), is an error: Python raises a `KeyError` for a name and an `IndexError` for a position. Format specs, conversions and indexing fall under the same error.
- JSON values of the wrong type (a number where a string is expected, say) are not modelled. Bodies are typed records whose keys may be absent.
- `validate_exe_path` and `validate_icon_path` are folded into `Host.files`: the set of path strings that resolve to an existing regular file. `resolve()` itself, the `.exe` suffix warning, and the `.strip()` of the icon source are not modelled.
- `require_admin` is `Host.admin`. `restart_explorer`, the HTTP routing, static files, `pick-file`, `status`, `open-log-folder`, the GUI, `main` and the logger setup are not part of this model.
- Only the `[DRY-RUN]` lines are modelled. The info, debug and warning lines, the dry-run banner, and `_SCOPE_LABELS` are not logged.
- The time stamp of a backup and the `TEMP` directory are parameters. The file size and modification time in the backup listing are left out.
- The file map holds files only. Directories are implied by locations, so creating the backup directory is not a step. UNC paths and drive-relative paths are not modelled.
- `errors="replace"` decoding is not modelled. File text is already characters.
- LogStore.LogFiles.DeleteBackup: for a name that resolves to a directory (the empty name, `.`, `..`, or an existing subdirectory of the backup directory) the model replies 404, because the files map holds only files. Under the lexical guard the server reaches `unlink` on that directory, which raises and gives 400.
- LogStore.LogFiles.RestoreLogs: for a non-empty name that resolves to a directory the model replies 404. Under the lexical guard the server reaches `read_text` on that directory, which raises and gives 400.
- LogStore.LogFiles.DeleteBackup, LogStore.LogFiles.RestoreLogs: the live log is the only file taken to be held open. The logger's file handler keeps it open (`logger_setup.py` is not part of this model), and Windows refuses to remove an open file. So only removing the live log fails. Other causes of a failed `unlink`, `read_text` or append (permissions, another process holding a backup) are not modelled.
- Registry writes and the opening of keys do not fail in the model. Only `DeleteKey` on a key with subkeys raises (`DeleteRefused`).
- Some behaviour of the code is kept as it is, though it could be expected otherwise. Extensions get a dot but are not lowercased. The key name is not checked for being non-empty. A restore appends the backup to the live log instead of replacing it. An edit always takes the default template. An edit does not roll back when the re-add fails. The removal entry gets `C:\dummy.exe` when the command yields an empty executable.

## Findings

| source | as written | input that shows it | evidently intended | confidence | as-written member | corrected member |
|---|---|---|---|---|---|---|
| app/server.py:387-388, 402-403 | The restore and delete handlers accept a name when `backup_path` exists and its text starts with the backup directory's text. The comparison is lexical. | filename `..\<name>` for a file `<name>` in the log directory: it prints as `…\logs\backups\..\<name>`, which passes, and it resolves to `logs\<name>`. Deleting it removes that file. Restoring it appends that file to the log and removes it. For `..\context_menu.log` the log is appended to itself before `unlink` fails on the open file. | Only files directly inside the backup directory are restored or deleted. | not executed | LogStore.LexicalRemovesSibling | LogStore.PlainNameStaysInBackups |
