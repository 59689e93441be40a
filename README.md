# Multiplayer client core: a Dafny model

This project models the self-contained logic in `Source/Client/Multiplayer.cs` of the RimWorld Multiplayer mod:

- **Tick and sync gating** (`TickGate`). These are the read-only predicates `ExecutingCmds`, `Ticking`, `MapContext` and `ShouldSync`. They are modelled as functions of a `GateState` record that holds the flags and map references they read.
- **The faction context stack** (`Factions`). `FactionContext.Push`, `Pop` and `Set` evaluate simulation code as if another faction were the player's. There are two layers:
  - a heap model, with objects for factions (mutable `def`), the faction manager (mutable `ofPlayer`) and the context (a `stack` field, top last, `null` as the sentinel);
  - a value model (`Snapshot`, `PushStep`, `PopStep`). The methods are proved to act on the heap exactly as this model says, and the properties are proved about the value model.
- **The `connect=` argument** (`ConnectArgs`). The argument is split on `:` the way `String.Split` does, the first part is the host, and the port is replaced by `int.TryParse` of the second part only when there are exactly two parts.
- **Username sanitisation** (`Username`). Every character outside `[a-zA-Z0-9_]` is removed, then the result is cut to 15 characters.
- **`ExposeIdBlock`** (`IdBlockScribe`). An optional ID block is saved as text under a label of a save document, or loaded back. The text codec is passed as a parameter.
- `Wrappers` holds the `Option` type that stands for nullable references.

Where the documented intent and the code differ, the model follows the code:

- **Push/pop neutrality.** A push/pop pair is documented as always identity-neutral. The code always restores the stack and the player faction. A sentinel push and its pop restore everything. For a participating faction, the pair restores every faction's def only when the player faction was a PlayerColony and the pushed faction was the player faction or a MultiplayerColony. `PushPopNeutralIff` proves both directions of that condition. `ScopeRestoresPlayer` proves that from any state every nesting of pushes and pops restores the stack and the player faction. `ScopeNeutral` proves that under the game's arrangement (`Consistent`) every such nesting is fully neutral.
- **Port.** The port is documented as coming after an optional `:`. In the code the port is used only when the split gives exactly two parts. So `::1` keeps the default port with host `""`. A second part that does not parse sets the port to 0, not to the default.
- **Username.** `username=` is documented as sanitised. In the code only the Steam persona name is sanitised (lines 121-123). A `username=` command-line value is taken as it is (lines 129-130).

## Model

| member | source | states |
|---|---|---|
| `Wrappers.Option.OrElse` | Source/Client/Multiplayer.cs:62 | the `??` operator: the result is present iff either operand is |
| `TickGate.ExecutingCmds` | Source/Client/Multiplayer.cs:60 | a command executing on the world or on some map counts as executing commands, and executing without the world means some map is executing |
| `TickGate.Ticking` | Source/Client/Multiplayer.cs:61 | ticking the world, a map or the constant ticker counts as ticking, and nothing else does |
| `TickGate.MapContext` | Source/Client/Multiplayer.cs:62 | a map context exists only while ticking or executing commands, and it is the ticking or the executing map |
| `TickGate.MapContextPrefersTickingMap` | Source/Client/Multiplayer.cs:62 | the ticking map when there is one, otherwise the executing-command map |
| `TickGate.ShouldSync` | Source/Client/Multiplayer.cs:65 | when sync is allowed, nothing is ticking, no command is executing and there is no map context |
| `TickGate.ShouldSyncExactly` | Source/Client/Multiplayer.cs:60-65 | sync is allowed iff all of these hold: a client exists, no world/map/constant ticking, no world/map command execution, not reloading, program state Playing, no long event, not dontSync |
| `TickGate.NoSyncWhileTickingOrExecuting` | Source/Client/Multiplayer.cs:60-65 | for every combination of the other inputs, ticking or executing commands forbids sync |
| `ConnectArgs.Split` | Source/Client/Multiplayer.cs:141 | `String.Split(':')` never returns an empty array, so the `split.Length == 0` branch is dead |
| `ConnectArgs.SplitLength` | Source/Client/Multiplayer.cs:141-147 | there is one more part than there are separators, so two parts means exactly one ':' |
| `ConnectArgs.SplitPartsFree` | Source/Client/Multiplayer.cs:141 | no part contains the separator |
| `ConnectArgs.JoinSplit` | Source/Client/Multiplayer.cs:141 | joining the parts with the separator gives back the argument |
| `ConnectArgs.SplitHead` | Source/Client/Multiplayer.cs:141-145 | the first part is the text before the first ':', or the whole argument if there is no ':' |
| `ConnectArgs.SplitOne` | Source/Client/Multiplayer.cs:141 | a string without the separator splits into itself alone |
| `ConnectArgs.SplitTwo` | Source/Client/Multiplayer.cs:141-147 | `a:b`, with neither side containing ':', splits into exactly `[a, b]` |
| `ConnectArgs.Trim` | Source/Client/Multiplayer.cs:148 | the result neither starts nor ends with the white space `int.TryParse` skips |
| `ConnectArgs.TrimPadded` | Source/Client/Multiplayer.cs:148 | exactly the white space around a non-blank text is removed, and the text itself is kept |
| `ConnectArgs.TrimBlank` | Source/Client/Multiplayer.cs:148 | text made only of white space trims to nothing |
| `ConnectArgs.ParseSigned` | Source/Client/Multiplayer.cs:148 | a value is produced only within the 32-bit range |
| `ConnectArgs.ParseSignedSound` | Source/Client/Multiplayer.cs:148 | a successful parse read an optional sign followed by at least one digit and nothing else, and its value is the signed value of those digits |
| `ConnectArgs.ParseSignedOutOfRange` | Source/Client/Multiplayer.cs:148 | a signed or unsigned digit string whose value lies outside 32 bits fails to parse |
| `ConnectArgs.TryParseInt` | Source/Client/Multiplayer.cs:148 | a parsed value is a 32-bit integer |
| `ConnectArgs.TrimUnpadded` | Source/Client/Multiplayer.cs:148 | text with no white space at either end is left unchanged by trimming |
| `ConnectArgs.ParseSignedDigits` | Source/Client/Multiplayer.cs:148 | a digit string within 32 bits, unsigned or signed '+' or '-', parses to its signed value |
| `ConnectArgs.DigitsValueOfNat` | Source/Client/Multiplayer.cs:148 | the decimal digits of n have value n |
| `ConnectArgs.TryParseIntToString` | Source/Client/Multiplayer.cs:148 | every 32-bit integer printed in decimal parses back to itself |
| `ConnectArgs.TryParseNeedsDigit` | Source/Client/Multiplayer.cs:148 | text without any digit fails to parse |
| `ConnectArgs.ConnectTarget` | Source/Client/Multiplayer.cs:137-148 | host is the text before the first ':'; port is the default unless there is exactly one ':'; with exactly one ':' the port is the parsed second part, or 0 when parsing fails |
| `ConnectArgs.FormattedTargetSplits` | Source/Client/Multiplayer.cs:139-148 | `host:port`, with a ':'-free host and a 32-bit port, splits into the host and text that parses back to the port |
| `Username.StripDisallowed` | Source/Client/Multiplayer.cs:122 | the regex replace keeps only `[a-zA-Z0-9_]` characters and never lengthens the name |
| `Username.TrimmedToLength` | Source/Client/Multiplayer.cs:123 | the result is a prefix of length min(length, n) |
| `Username.SanitizeUsername` | Source/Client/Multiplayer.cs:122-123 | the result has only ASCII letters, digits and '_', is at most 15 long, is a prefix of the stripped name, is exactly 15 long when at least 15 characters survive, and is the whole stripped name when at most 15 survive |
| `Username.StripDisallowedAppend` | Source/Client/Multiplayer.cs:122 | stripping distributes over concatenation (it acts character by character) |
| `Username.StripDisallowedChar` | Source/Client/Multiplayer.cs:122 | one character is kept iff the character class matches it |
| `Username.StripDisallowedKeepsNameChars` | Source/Client/Multiplayer.cs:122 | nothing is removed from a string of name characters |
| `Username.StripDisallowedFixpoints` | Source/Client/Multiplayer.cs:122 | stripping leaves a string unchanged iff all its characters are name characters |
| `Username.SanitizeKeepsSanitized` | Source/Client/Multiplayer.cs:122-123 | an already sanitised name is returned unchanged |
| `Username.SanitizeIdempotent` | Source/Client/Multiplayer.cs:122-123 | sanitising twice equals sanitising once |
| `IdBlockScribe.ExposeIdBlock` | Source/Client/Multiplayer.cs:291-309 | saving a present block writes its text under the label; saving no block leaves the document unchanged; loading with the label absent gives no block; loading with the label present gives the decoded block or reports malformed text with the block unassigned; other modes do nothing |
| `IdBlockScribe.SaveThenLoad` | Source/Client/Multiplayer.cs:293-307 | with an inverse codec, saving a block and loading the result gives an equal block back |
| `Factions.PushStep` | Source/Client/Multiplayer.cs:328-339 | Push returns null or the faction, puts a null sentinel or the old player faction on top of the stack, and makes the faction the player faction only when it returns it |
| `Factions.PopStep` | Source/Client/Multiplayer.cs:341-347 | Pop fails exactly on an empty stack; otherwise it returns the top, removes it, and makes a non-null top the player faction |
| `Factions.SetStep` | Source/Client/Multiplayer.cs:349-354 | the old player faction becomes MultiplayerColony, the target becomes PlayerColony and the player faction, and no other def changes |
| `Factions.SentinelPush` | Source/Client/Multiplayer.cs:330-334 | pushing a null or non-participating faction pushes one null, returns null, and leaves every def and the player faction unchanged |
| `Factions.SentinelPushPop` | Source/Client/Multiplayer.cs:330-346 | the pop after a sentinel push returns null and restores exactly the state before the push |
| `Factions.ParticipatingPush` | Source/Client/Multiplayer.cs:336-354 | a participating push returns the faction, puts the old player faction on top of the stack, makes the faction the PlayerColony player faction and the old one MultiplayerColony, and leaves other defs unchanged |
| `Factions.PushPopRestoresPlayer` | Source/Client/Multiplayer.cs:328-347 | a push and its matching pop always restore the stack and the player faction, and the pop returns what the push saved |
| `Factions.PushPopNeutralIff` | Source/Client/Multiplayer.cs:328-354 | for a participating faction, push then pop restores the whole state iff the player faction was PlayerColony and the pushed faction was the player faction or a MultiplayerColony |
| `Factions.ConsistentRestoresDefs` | Source/Client/Multiplayer.cs:328-354 | when the player faction is the only PlayerColony, every participating push meets the restoring condition |
| `Factions.PushKeepsConsistent` | Source/Client/Multiplayer.cs:328-339 | Push keeps the player faction the only PlayerColony |
| `Factions.PopKeepsConsistent` | Source/Client/Multiplayer.cs:341-347 | Pop keeps the player faction the only PlayerColony |
| `Factions.ScopeNeutral` | Source/Client/Multiplayer.cs:326-354 | from a Consistent snapshot, any balanced nesting of push/pop scopes ends in the exact starting state: the same stack depth and contents, player faction and defs |
| `Factions.ScopesNeutral` | Source/Client/Multiplayer.cs:326-354 | from a Consistent snapshot, the same for a sequence of scopes run one after another |
| `Factions.ScopeRestoresPlayer` | Source/Client/Multiplayer.cs:326-354 | from any snapshot, a balanced nesting of push/pop scopes over known factions never underflows and restores the stack, the player faction and the set of factions |
| `Factions.ScopesRestorePlayer` | Source/Client/Multiplayer.cs:326-354 | the same for a sequence of scopes run one after another |
| `Factions.FactionContext.constructor` | Source/Client/Multiplayer.cs:326 | the stack starts empty |
| `Factions.FactionContext.Set` | Source/Client/Multiplayer.cs:349-354 | on the heap: the target becomes the PlayerColony player faction and the old player faction MultiplayerColony; only those two factions and the manager can change |
| `Factions.FactionContext.Push` | Source/Client/Multiplayer.cs:328-339 | on the heap: the return value, the new stack and the new player faction for both paths, with only the pushed faction, the old player faction, the manager and the stack allowed to change, all as PushStep |
| `Factions.FactionContext.Pop` | Source/Client/Multiplayer.cs:341-347 | on the heap: returns and removes the top, restores a non-null top as the player faction, as PopStep; an empty stack is an underflow that changes nothing |
| `Factions.PushThenPop` | Source/Client/Multiplayer.cs:328-347 | on the heap: a Push and its Pop restore the stack and the player faction; the defs are restored after a sentinel push, and after a participating push exactly when the restoring condition held |

## Left out

- The static constructor (lines 72-113) is not modelled. It does profiler and logging setup, Steam callbacks and Unity objects: host side effects only.
- The registration of connection-state classes (lines 97-99) is not modelled. The state classes themselves are not part of this model.
- `DoPatches` (lines 177-264) is not modelled. It reflects over types and applies Harmony patches, which gives it no behaviour to check. That includes the list of side-effect methods it suppresses.
- `CollectCursorIcons` (lines 274-289) and `HandleReceive` (lines 311-321) are not modelled. They are asset collection and a try/catch around a handler outside this file.
- `SetUsername` is modelled only in its sanitising step. The settings lookup and write, the Steam persona lookup, the command-line override and the random `"Player" + Rand.Range(0, 9999)` default are I/O and randomness.
- In `HandleCommandLine`, `IPAddress.TryParse`, `LongEventHandler.QueueLongEvent`, the `arbiter` flag and replay loading are not modelled. They are a foreign library, scheduling, preferences and diagnostic logging. The model stops at the host string and port.
- `RealPlayerFaction`, `ReplaysDir`, `DesyncsDir`, `Clock` and the float-precision save patches are not modelled. They are game-object lookups, the filesystem, the clock and floating point.
- `ConnectArgs.ConnectTarget`: the default port is an input, because `MultiplayerServer.DefaultPort` is not part of this model.
- `ConnectArgs.TryParseInt`: models NumberStyles.Integer with the invariant culture. It allows ASCII white space (U+0009 to U+000D and U+0020) at both ends, an optional '+' or '-', at least one '0'-'9' digit, and a value within 32 bits. It does not model culture-specific sign symbols or the trailing NUL characters some .NET versions accept.
- `Username.TrimmedToLength`: Verse's `TrimmedToLength` is not part of this model. It is assumed to return the first n characters when the string is longer, and the string itself otherwise.
- `Username.StripDisallowed`: a name is a sequence of Unicode scalar values, not UTF-16 code units. A character outside the Basic Multilingual Plane is removed as one character, with the same result.
- `IdBlockScribe.ExposeIdBlock`: base64 (section 4 of RFC 4648) and the byte layout of `IdBlock.Serialize` are not part of this model. The codec is an input, and the round trip is proved for any codec whose decoder inverts its encoder. A decode failure stands for the exception the source would throw. The save document is a map, so writing a label twice overwrites the earlier value. The XML the game writes would hold both.
- `Factions.FactionContext.Push`: the static class is one object, and `Find.FactionManager` is its `manager` field. The value-model view `Abs(known)` covers the factions the caller names in the ghost set `known`. All other objects are covered by the modifies clause alone.
- The single-thread access rule (the stack and the gating flags are touched only from the simulation thread) is not modelled. The model is sequential.
