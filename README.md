# orion-core: permissions, command registry and configuration, in Dafny

This project models the three self-contained components of the orion-core
Discord bot host:

- **The permission store and resolver** (`YamlPermissionManager`,
  `permissions.dfy`). It keeps two maps in place, user id → granted permission
  strings and role id → granted permission strings. It adds, removes and clears
  grants, loads both maps from the parsed `permissions.yml`, and answers whether
  a guild member (a user id plus role ids) holds a permission. The matcher for a
  single grant, `PermissionNode.matches`, is not part of this code base. Every
  query therefore takes it as a parameter `matches(granted, required)`, and the
  resolver's properties hold for any matcher.
- **The slash-command registry** (`SimpleCommandRegistry`, `commands.dfy`). It
  is a name → command map in which the first registration of a name wins. An
  incoming event is dispatched to the command stored under its name.
- **Configuration lookup** (`BotConfig`, `config.dfy`). This covers
  `getString`/`getBoolean`, which split a dotted key with Java's `split`
  semantics and walk it through nested YAML mappings, falling back to a
  default. It also covers the four settings `loadConfig` reads and the token
  check of `validateConfig`.

`yaml.dfy` holds the parsed-YAML value shared by the loader and the
configuration. A mapping is the parser's insertion-ordered map with distinct
keys, and `Text` is Java's `toString` of a value. `wrappers.dfy` holds `Option`,
which stands for a Java reference that may be null.

Stateful parts are classes whose methods change fields in place:
`YamlPermissionManager` with `userPermissions`, `rolePermissions` and `saves`,
and `SimpleCommandRegistry` with `commands`. Each method is proved against pure
functions of the old state: `WithGrant`, `WithoutGrant`, `WithoutActor`,
`LoadDocument`, `Registered` and `Unregistered`. Lemmas state the properties of
those functions. The loops of the source stay loops, proved against
specification functions:

- `checkPermissionMatch`: `AnyMatch`
- `hasPermission(Member)`: `Authorized`
- `getEffectivePermissions`: `Effective`
- `load`'s two entry loops: `ListEntries`
- `getString`/`getBoolean`: `Walk`

The `saves` field counts the writes of the permissions file that the source
issues (`save()`). The file's contents are not modelled.

## Model

| member | source | states |
|---|---|---|
| `Yaml.Get` | src/main/java/fr/orion/core/config/BotConfig.java:109 | `Map.get`: the value bound to the key (the key's own entry when keys are distinct), `Null` when unbound |
| `Yaml.Text` | src/main/java/fr/orion/core/config/BotConfig.java:115 | `toString` of a parsed value: a string is itself, a boolean "true"/"false", null "null", a list "[a, b]" and a mapping "{k=v, ...}" in entry order |
| `Config.DropTrailingEmpty` | src/main/java/fr/orion/core/config/BotConfig.java:104 | the longest prefix of the pieces that does not end in an empty piece; every piece dropped is empty |
| `Config.SplitPath` | src/main/java/fr/orion/core/config/BotConfig.java:104 | `path.split("\\.")`: a path without a dot is its own only part; otherwise the dot-cut pieces with the trailing empty ones dropped; no part holds a dot |
| `Config.SplitPathEdgeCases` | src/main/java/fr/orion/core/config/BotConfig.java:104 | "" splits to [""], "." to [], "a." to ["a"], ".a" to ["", "a"] and "a..b" to ["a", "", "b"] |
| `Config.SplitAll` | src/main/java/fr/orion/core/config/BotConfig.java:104 | the cut at every dot inside `split`, keeping every piece, empty ones included; there is always at least one piece |
| `Config.SplitAllPieces` | src/main/java/fr/orion/core/config/BotConfig.java:104 | cutting a string at every dot gives dot-free pieces that join back to the string |
| `Config.SplitPathJoin` | src/main/java/fr/orion/core/config/BotConfig.java:104 | `split("\\.")` of non-empty dot-free names joined by dots gives back exactly those names |
| `Config.Walk` | src/main/java/fr/orion/core/config/BotConfig.java:107-113 | following the parts from a value: stuck (`None`) when a step is taken from a non-mapping, otherwise the value reached, with `Null` for a missing key |
| `Config.ConfigString` | src/main/java/fr/orion/core/config/BotConfig.java:103-116 | `getString`'s answer: the default when the walk is stuck or ends at null, otherwise the text of the value reached |
| `Config.ConfigBool` | src/main/java/fr/orion/core/config/BotConfig.java:119-136 | `getBoolean`'s answer: the boolean reached, or the default for anything else |
| `Config.WalkAppend` | src/main/java/fr/orion/core/config/BotConfig.java:107-113 | walking a path in two halves equals walking it whole; a step from a non-mapping stops the walk |
| `Config.WalkNest` | src/main/java/fr/orion/core/config/BotConfig.java:107-113 | walking a chain of nested mappings along its own keys reaches its leaf |
| `Config.GetString` | src/main/java/fr/orion/core/config/BotConfig.java:103-116 | the loop returns the default when a step is taken from a non-mapping or the final value is null/missing, and otherwise the final value's `toString` |
| `Config.GetBoolean` | src/main/java/fr/orion/core/config/BotConfig.java:119-136 | the loop returns the final value only when it is a boolean, and the default for any other final value or a blocked walk |
| `Config.StringAtNestedPath` | src/main/java/fr/orion/core/config/BotConfig.java:103-116 | a string stored at a dotted path is what `getString` reads back from that path |
| `Config.BoolDefaultUnlessBoolean` | src/main/java/fr/orion/core/config/BotConfig.java:131-135 | when no boolean is reached, `getBoolean` gives its default |
| `Config.TokenSetting` | src/main/java/fr/orion/core/config/BotConfig.java:42 | the token is the text of `bot.token`, or "" when it is missing or null |
| `Config.GuildIdSetting` | src/main/java/fr/orion/core/config/BotConfig.java:43 | the guild id is the text of `bot.guildId`, or "" when it is missing or null |
| `Config.DevModeSetting` | src/main/java/fr/orion/core/config/BotConfig.java:44 | development mode is on exactly when `bot.devMode` is the boolean true |
| `Config.LogLevelSetting` | src/main/java/fr/orion/core/config/BotConfig.java:45 | the log level is the text of `bot.logLevel`, or "INFO" when it is missing or null |
| `Config.DefaultsWithoutBotSection` | src/main/java/fr/orion/core/config/BotConfig.java:42-45 | without a `bot` mapping the settings are token "", guild id "", development mode false, log level "INFO" |
| `Config.LoadConfig` | src/main/java/fr/orion/core/config/BotConfig.java:40-45 | the four fields are read from their paths with their defaults |
| `Config.TrimStart` | src/main/java/fr/orion/core/config/BotConfig.java:56 | the suffix left after the leading characters up to U+0020; it starts with a character above U+0020 or is empty |
| `Config.TrimEnd` | src/main/java/fr/orion/core/config/BotConfig.java:56 | the prefix left before the trailing characters up to U+0020; it ends with a character above U+0020 or is empty |
| `Config.Trim` | src/main/java/fr/orion/core/config/BotConfig.java:56 | `trim()` is empty exactly when every character is at most U+0020; otherwise it starts and ends with a character above U+0020 |
| `Config.TokenAccepted` | src/main/java/fr/orion/core/config/BotConfig.java:55-64 | a token is accepted exactly when it has a character above U+0020 (`trim()` leaves it non-empty) and is not "YOUR_BOT_TOKEN_HERE" |
| `Config.MissingTokenRejected` | src/main/java/fr/orion/core/config/BotConfig.java:56-59 | a configuration with no token is refused |
| `Config.DefaultDocument` | src/main/java/fr/orion/core/config/BotConfig.java:73-87 | the configuration `createDefaultConfig` writes: a `bot` section with the placeholder token, an empty guild id, development mode on and log level "INFO", and a `database` section; both levels are `HashMap`s, so the entries follow the JDK's `HashMap` iteration order (`database` before `bot`) |
| `Config.DefaultDocumentRejected` | src/main/java/fr/orion/core/config/BotConfig.java:71-87 | the configuration `createDefaultConfig` writes is refused until its token is edited |
| `Commands.Registered` | src/main/java/fr/orion/core/command/SimpleCommandRegistry.java:48-62 | the map after `registerCommand`: unchanged for a null command or a taken name, otherwise the old map plus name → command |
| `Commands.Unregistered` | src/main/java/fr/orion/core/command/SimpleCommandRegistry.java:65-79 | the map after `unregisterCommand`: unchanged for a null command or an absent name, otherwise the old map without the command's name |
| `Commands.SimpleCommandRegistry.constructor` | src/main/java/fr/orion/core/command/SimpleCommandRegistry.java:19 | a new registry is empty |
| `Commands.SimpleCommandRegistry.RegisterCommand` | src/main/java/fr/orion/core/command/SimpleCommandRegistry.java:48-62 | a null command or a taken name changes nothing; otherwise exactly name → command is added; every command stays under its own name |
| `Commands.SimpleCommandRegistry.UnregisterCommand` | src/main/java/fr/orion/core/command/SimpleCommandRegistry.java:65-79 | a null command or an unregistered name changes nothing; otherwise the key `command.getName()` goes, whichever command is stored there |
| `Commands.SimpleCommandRegistry.GetCommand` | src/main/java/fr/orion/core/command/SimpleCommandRegistry.java:82-84 | the stored command, which carries the name asked for, or null exactly when the name is absent |
| `Commands.SimpleCommandRegistry.GetCommands` | src/main/java/fr/orion/core/command/SimpleCommandRegistry.java:87-89 | exactly the registered commands, one per registered name |
| `Commands.SimpleCommandRegistry.OnSlashCommandInteraction` | src/main/java/fr/orion/core/command/SimpleCommandRegistry.java:29-45 | the command registered under the event's name is executed; an unknown name executes nothing |
| `Commands.ValuesOnePerName` | src/main/java/fr/orion/core/command/SimpleCommandRegistry.java:87-89 | a map keyed by its commands' own names holds as many distinct commands as names |
| `Commands.FirstRegistrationWins` | src/main/java/fr/orion/core/command/SimpleCommandRegistry.java:54-58 | registering a second command under a taken name leaves the first one in place |
| `Commands.RegisterThenUnregister` | src/main/java/fr/orion/core/command/SimpleCommandRegistry.java:55-77 | registering under a fresh name and then unregistering restores the registry |
| `Commands.UpdatesKeepOtherNames` | src/main/java/fr/orion/core/command/SimpleCommandRegistry.java:55-77 | register and unregister keep every command under its own name and leave other names' entries alone |
| `Permissions.GrantsOf` | src/main/java/fr/orion/core/permission/YamlPermissionManager.java:160-169 | the getters' answer: the actor's set, or the empty set when the actor has no entry |
| `Permissions.Lower` | src/main/java/fr/orion/core/permission/YamlPermissionManager.java:109 | `toLowerCase()`: the same length, no capital letter left, every other character kept |
| `Permissions.LowerIdempotent` | src/main/java/fr/orion/core/permission/YamlPermissionManager.java:109 | lower-casing an already lower-cased permission changes nothing |
| `Permissions.WithGrant` | src/main/java/fr/orion/core/permission/YamlPermissionManager.java:109 | after an add, the actor's set is the old set plus the permission; the actor is now present and other actors are unchanged |
| `Permissions.WithoutGrant` | src/main/java/fr/orion/core/permission/YamlPermissionManager.java:120-125 | after a remove, the actor's set is the old set minus the permission; the actor is dropped exactly when nothing else was left; others are unchanged |
| `Permissions.WithoutActor` | src/main/java/fr/orion/core/permission/YamlPermissionManager.java:191 | after a clear, the actor has no entry and an empty set; others are unchanged |
| `Permissions.AddIdempotent` | src/main/java/fr/orion/core/permission/YamlPermissionManager.java:109 | adding the same permission twice gives the same state as adding it once |
| `Permissions.RemoveAbsentUnchanged` | src/main/java/fr/orion/core/permission/YamlPermissionManager.java:120-125 | removing a permission the actor does not hold changes nothing, as long as no actor maps to an empty set |
| `Permissions.RemoveDropsEmptyEntry` | src/main/java/fr/orion/core/permission/YamlPermissionManager.java:122-125 | an actor loaded with an empty set is dropped by any removal |
| `Permissions.AddThenRemove` | src/main/java/fr/orion/core/permission/YamlPermissionManager.java:104-129 | adding a permission the actor lacked and then removing it restores the namespace |
| `Permissions.UpdatesKeepNoEmptyEntries` | src/main/java/fr/orion/core/permission/YamlPermissionManager.java:104-204 | add, remove and clear preserve "no actor maps to an empty set" |
| `Permissions.LoadMayStoreEmptySet` | src/main/java/fr/orion/core/permission/YamlPermissionManager.java:271-274 | `load` stores an empty list as an empty set, breaking that invariant |
| `Permissions.AnyMatch` | src/main/java/fr/orion/core/permission/YamlPermissionManager.java:93-101 | some granted string in the set matches the required one |
| `Permissions.Authorized` | src/main/java/fr/orion/core/permission/YamlPermissionManager.java:47-63 | a non-null member and a non-null permission, with a matching grant held by the member's user or by one of its roles |
| `Permissions.RoleUnion` | src/main/java/fr/orion/core/permission/YamlPermissionManager.java:181-183 | the grants of the listed roles taken together, role by role |
| `Permissions.Effective` | src/main/java/fr/orion/core/permission/YamlPermissionManager.java:172-186 | the user's grants together with those of all its roles; nothing for a null member |
| `Permissions.CheckPermissionMatch` | src/main/java/fr/orion/core/permission/YamlPermissionManager.java:93-101 | the scan returns true exactly when some granted string matches the required one |
| `Permissions.RoleUnionMembers` | src/main/java/fr/orion/core/permission/YamlPermissionManager.java:181-183 | a string is in the roles' union exactly when one of the member's roles holds it |
| `Permissions.AuthorizedViaEffective` | src/main/java/fr/orion/core/permission/YamlPermissionManager.java:172-186 | a member is authorized exactly when some string of its effective permissions matches |
| `Permissions.GrantKeepsAuthorization` | src/main/java/fr/orion/core/permission/YamlPermissionManager.java:47-63 | granting any permission to any user or role never takes an authorization away |
| `Permissions.RoleGrantAuthorizes` | src/main/java/fr/orion/core/permission/YamlPermissionManager.java:56-60 | a matching grant added to one of the member's roles authorizes the member |
| `Permissions.RevokeOnlyMatchingGrant` | src/main/java/fr/orion/core/permission/YamlPermissionManager.java:148-153 | removing the only matching grant revokes the authorization at the next check |
| `Permissions.CapitalGrantSurvivesRemoval` | src/main/java/fr/orion/core/permission/YamlPermissionManager.java:122 | a stored grant holding a capital letter survives every removal, because removal looks up the lower-cased permission |
| `Permissions.StrItems` | src/main/java/fr/orion/core/permission/YamlPermissionManager.java:273 | `new HashSet<>(permissions)`: the strings of the list as a set, duplicates merged |
| `Permissions.ListEntries` | src/main/java/fr/orion/core/permission/YamlPermissionManager.java:267-287 | the namespace `load` builds from a mapping, entry by entry: each key bound to a list gets the list's strings |
| `Permissions.LoadDocument` | src/main/java/fr/orion/core/permission/YamlPermissionManager.java:251-296 | what `load` leaves: both maps empty and a fallback save for a missing file or a non-mapping top level, or for a `users` value that is neither null nor a mapping; the users read and a fallback save when only `roles` is malformed; otherwise both namespaces read and no save |
| `Permissions.ListEntriesMeaning` | src/main/java/fr/orion/core/permission/YamlPermissionManager.java:267-287 | a loaded namespace holds exactly the keys bound to lists, each with its list's strings, duplicates merged and not lower-cased |
| `Permissions.WritesGrants` | src/main/java/fr/orion/core/permission/YamlPermissionManager.java:227-238 | how `save` lays out one map: each actor once, bound to a list whose strings are exactly its set |
| `Permissions.SaveLoadRoundTrip` | src/main/java/fr/orion/core/permission/YamlPermissionManager.java:223-287 | a file written the way `save` writes both maps loads back as the same maps, with no fallback write, whichever of `users` and `roles` comes first |
| `Permissions.YamlPermissionManager.constructor` | src/main/java/fr/orion/core/permission/YamlPermissionManager.java:28-44 | a new manager holds what `load` reads from the file |
| `Permissions.YamlPermissionManager.Save` | src/main/java/fr/orion/core/permission/YamlPermissionManager.java:223-248 | each call is one more write of the file |
| `Permissions.YamlPermissionManager.Load` | src/main/java/fr/orion/core/permission/YamlPermissionManager.java:251-296 | both maps are cleared, then filled from the `users` and `roles` mappings; a missing file, an empty file or one with the wrong shape ends in `createDefaultConfig`, one save of what was read before the failure |
| `Permissions.YamlPermissionManager.Reload` | src/main/java/fr/orion/core/permission/YamlPermissionManager.java:217-220 | the same as `Load` |
| `Permissions.YamlPermissionManager.HasUserPermission` | src/main/java/fr/orion/core/permission/YamlPermissionManager.java:66-77 | true exactly when user and permission are non-null and one of the user's grants matches |
| `Permissions.YamlPermissionManager.HasRolePermission` | src/main/java/fr/orion/core/permission/YamlPermissionManager.java:80-91 | true exactly when role and permission are non-null and one of the role's grants matches |
| `Permissions.YamlPermissionManager.HasPermission` | src/main/java/fr/orion/core/permission/YamlPermissionManager.java:47-63 | true exactly when member and permission are non-null and the user's set or some role's set holds a matching grant; an absent or empty set contributes nothing |
| `Permissions.YamlPermissionManager.AddUserPermission` | src/main/java/fr/orion/core/permission/YamlPermissionManager.java:104-112 | with non-null arguments the user's set gains the lower-cased permission and one write follows; a null changes nothing; roles are untouched |
| `Permissions.YamlPermissionManager.RemoveUserPermission` | src/main/java/fr/orion/core/permission/YamlPermissionManager.java:115-129 | a user with an entry loses the lower-cased permission, is dropped when left empty, and one write follows; a null or a user with no entry changes and writes nothing |
| `Permissions.YamlPermissionManager.AddRolePermission` | src/main/java/fr/orion/core/permission/YamlPermissionManager.java:132-140 | the role twin of `AddUserPermission`; users are untouched |
| `Permissions.YamlPermissionManager.RemoveRolePermission` | src/main/java/fr/orion/core/permission/YamlPermissionManager.java:143-157 | the role twin of `RemoveUserPermission`; users are untouched |
| `Permissions.YamlPermissionManager.ClearUserPermissions` | src/main/java/fr/orion/core/permission/YamlPermissionManager.java:189-195 | a non-null user's entry is removed wholesale and one write follows; a null changes nothing |
| `Permissions.YamlPermissionManager.ClearRolePermissions` | src/main/java/fr/orion/core/permission/YamlPermissionManager.java:198-204 | the role twin of `ClearUserPermissions` |
| `Permissions.YamlPermissionManager.GetUserPermissions` | src/main/java/fr/orion/core/permission/YamlPermissionManager.java:160-163 | the user's set, and the empty set (never null) for a user with no entry |
| `Permissions.YamlPermissionManager.GetRolePermissions` | src/main/java/fr/orion/core/permission/YamlPermissionManager.java:166-169 | the role's set, and the empty set (never null) for a role with no entry |
| `Permissions.YamlPermissionManager.GetEffectivePermissions` | src/main/java/fr/orion/core/permission/YamlPermissionManager.java:172-186 | the loop yields the user's set together with every role's set, and nothing for a null member |
| `Permissions.YamlPermissionManager.GetAllUsersWithPermissions` | src/main/java/fr/orion/core/permission/YamlPermissionManager.java:207-209 | exactly the user ids that have an entry |
| `Permissions.YamlPermissionManager.GetAllRolesWithPermissions` | src/main/java/fr/orion/core/permission/YamlPermissionManager.java:212-214 | exactly the role ids that have an entry |

Notes on where the code decides:

- The store is meant to never keep an actor mapped to an empty set. Add,
  remove and clear keep that invariant (`UpdatesKeepNoEmptyEntries`). `load`
  does not: it stores each file list as it is, empty ones included
  (`LoadMayStoreEmptySet`). The model follows the code. A later removal from
  such an actor drops it (`RemoveDropsEmptyEntry`), even when the permission
  removed was never there.
- A permission granted through the manager is lower-cased. A permission read
  by `load` is stored exactly as the file spells it. So a loaded grant with a
  capital letter, such as "Admin", can never be taken away by
  `removeUserPermission` or `removeRolePermission`, which look up the
  lower-cased permission (`CapitalGrantSurvivesRemoval`). Only clearing the
  actor removes it.

## Left out

- Module lifecycle and dependency ordering (`DefaultModuleLoader`,
  `ModuleManager`, `Module`, `ModuleDescriptor`): these types are not part of
  this code base, so there is no code to model them from.
- `PermissionNode.matches` is not part of this model. It is the `matches`
  parameter, and no wildcard rule is assumed.
- File I/O and YAML encoding. `save` is modelled only as a count of writes. The
  file read in `load` becomes its input: the parsed document, or `None` when
  there is no file or the parser rejects it (both end in the same fallback).
  `YamlPermissionManager.createDefaultConfig` is a plain `save`, counted on
  `Load`'s fallback paths. It writes the maps as they stand, so when only
  `roles` is malformed the users already read are written back and the file's
  `roles` section is replaced. Of `BotConfig.createDefaultConfig`, only the
  document it writes is modelled (`DefaultDocument`). Writing that document,
  and `BotConfig`'s file read, are not modelled.
- GetCommands returns a snapshot `set` of the commands. The source returns a
  live, unmodifiable view of the map's values. The view is not modelled; a
  caller that reads it at once sees the same commands.
- `System.exit` is not modelled. `validateConfig`'s outcome is the predicate
  `TokenAccepted`. A configuration whose top level is neither a mapping nor
  empty makes `loadConfig` exit at once. `LoadConfig` instead reads the
  defaults, whose empty token `TokenAccepted` then refuses.
- `LoadConfig` returns the four settings as a `Settings` value instead of
  setting `BotConfig`'s fields. The fields are written once, at construction,
  and only read afterwards.
- Thread safety of the `ConcurrentHashMap`s: every operation is modelled
  sequentially.
- `ConcurrentHashMap.get(null)` throws. The getters, `GetCommand` and dispatch
  therefore take non-null ids and names. Null is modelled only where the source
  tests for it.
- `Lower` lower-cases ASCII letters only. Java's locale-dependent `toLowerCase`
  also maps other letters, and this model does not.
- YAML keys that are not strings are out of scope: an unquoted numeric id is
  parsed as a number, and the source's cast then throws. Repeated keys in one
  mapping, which the parser merges, are also out of scope. The model's mappings
  have string keys.
- `StrItems` and `ListEntries` keep only the string elements of a list. The source copies
  every element into the set, and a non-string element fails only later, when a
  check iterates the set.
- The effect of `Command.execute`, and the error reply sent when it throws, are
  foreign code. Dispatch is modelled as the decision of which command runs.
- The UI commands (`ModulesCommand`, `PermissionCommand`,
  `ListModulesCommand`), `OrionBot` startup, `SimpleEventRegistry`,
  `synchronizeCommands` (asynchronous Discord calls) and all logging.
