# RunScripts plugin: a Dafny model of its dispatch logic

The Jellyfin RunScripts plugin runs a user-configured command when playback
starts or stops. For each user taking part in the event, the handler does this:

1. It looks up the user's entry in the plugin configuration.
2. It skips the user if there is no entry or no command for this event.
3. Otherwise it splits the command string into an executable and its arguments.
4. It builds the `EVENT_ARGS` payload that describes the playback.
5. It hands everything to the process runner.

Two revisions of the handlers exist, and the model keeps them apart:

- **`RunScripts.cs` (current).** A quote- and escape-aware tokenizer
  (`ParseCommandLine`). A search for the media source actually playing
  (`GetPlayingVersion`). A typed environment record (`RunScriptsEnv`) that is
  serialized with every property, null ones included.
- **`EntryPoint.cs` (older).** The command is cut with `Split(" ")`. The whole
  event is serialized, and a regular expression then strips password
  properties from it (`stripPasswords`).

Modules:

- `Wrappers`: `Option` for C# `null` and `Result` for an exception.
- `Strings`: the .NET string helpers used here: `String.IsNullOrEmpty`,
  `String.Split` on one character, and joining.
- `Host`: the media server types the handlers read. These are users, sessions,
  queue items, media sources and the two playback events.
- `Configuration`: `RunScriptsUser`, `PluginConfiguration`, and the
  `FirstOrDefault` lookup by user id.
- `CommandLine`: `ParseCommandLine`. It is a method that loops over the
  characters, proved equal to the function `Parse`. `Parse` is defined one
  character at a time by `Step`, and lemmas state its properties.
- `ScriptEnv`: the `RunScriptsEnv` record, `GetPlayingVersion` (nested loops,
  proved against the function `PlayingVersion`), `GetScriptEnvStart`,
  `GetScriptEnvStop`, and the set of JSON keys written for a record, both as
  the handlers call the serializer and with the null-skipping options they build.
- `RunScripts`: `GetUserConfig` and the per-user loop of `PlaybackStart` /
  `PlaybackStopped`.
- `EntryPoint`: the older revision. It has `StripPasswords`, its
  `GetUserConfig` (which throws when `Plugin.Instance` is null), and its loop.
- `Revisions`: lemmas that compare the two revisions.

Process execution is not modelled as I/O. A handler's result for one user is
the call it makes to `Command.Run`: the executable, the arguments and the
environment payload. Every exception raised inside the handler's `try` is
caught, and the loop then moves on to the next user. So that call depends only
on the configuration and the event, and not on what the process does.

## Model

| member | source | states |
|---|---|---|
| `CommandLine.ParseCommandLine` | Jellyfin.Plugin.RunScripts/RunScripts.cs:203-252 | The character loop returns exactly `Parse(input)`. No token is empty. For input without `"` and `\`, the tokens are the space-separated pieces with the empty ones dropped. |
| `CommandLine.NoEmptyTokens` | Jellyfin.Plugin.RunScripts/RunScripts.cs:232-249 | No token is ever empty, because a buffer is stored only when it is not empty. |
| `CommandLine.PlainSplitsOnSpaces` | Jellyfin.Plugin.RunScripts/RunScripts.cs:232-243 | Without quotes and backslashes, the tokens are exactly the maximal runs of non-space characters, in input order. |
| `CommandLine.BlankGivesNoTokens` | Jellyfin.Plugin.RunScripts/RunScripts.cs:232-249 | Input made only of spaces (or empty) gives an empty list. |
| `CommandLine.QuotesOnlyGiveNoTokens` | Jellyfin.Plugin.RunScripts/RunScripts.cs:221-231 | Input made only of double quotes, such as `""`, gives an empty list. |
| `CommandLine.ScanEscaped` | Jellyfin.Plugin.RunScripts/RunScripts.cs:212-220 | A backslash makes the next character, whatever it is (space, `"`, `\`), go into the buffer literally. The quote flag is unchanged. |
| `CommandLine.ParseQuote` | Jellyfin.Plugin.RunScripts/RunScripts.cs:210-249 | Round trip: for any list of non-empty arguments, fully escaping each one and joining them with spaces gives a string that parses back to that list. |
| `CommandLine.QuotedSegmentIsOneToken` | Jellyfin.Plugin.RunScripts/RunScripts.cs:221-249 | When the quoted segment is the whole input, it is one token that keeps its spaces, and the quotes are not copied. An unterminated quote is no error: the buffer is still flushed at the end. |
| `CommandLine.QuotedSegmentThenRest` | Jellyfin.Plugin.RunScripts/RunScripts.cs:221-243 | A closed quoted segment followed by a space is one token, with its spaces kept and no quotes, placed ahead of the tokens of the rest of the line, whatever that rest is. |
| `CommandLine.TrailingBackslashDropped` | Jellyfin.Plugin.RunScripts/RunScripts.cs:217-249 | A lone backslash at the end of the input has no effect on the result. |
| `CommandLine.QuotesNeverInTokens` | Jellyfin.Plugin.RunScripts/RunScripts.cs:221-231 | Without backslashes, no token contains `"`: an unescaped quote only flips the quote flag. |
| `Configuration.FirstForUser` | Jellyfin.Plugin.RunScripts/RunScripts.cs:200 | `FirstOrDefault` by user id. The result is present exactly when some entry has that id, and it is the first such entry. |
| `ScriptEnv.PlayingVersion` | Jellyfin.Plugin.RunScripts/RunScripts.cs:51-66 | The result is present exactly when some queued source has the event's `MediaSourceId`. It is then the first such source, taking items in queue order and each item's sources in order. |
| `ScriptEnv.GetPlayingVersion` | Jellyfin.Plugin.RunScripts/RunScripts.cs:51-66 | The nested loops with early return give that same first match, or null when no source matches. A non-null result carries the requested id. |
| `ScriptEnv.GetScriptEnvStart` | Jellyfin.Plugin.RunScripts/RunScripts.cs:68-90 | The percentage is present exactly when position and run time are both known and the position is positive, and it is built from those two values. The completion flag is null. The media source is the playing version, and the session fields are copied. |
| `ScriptEnv.GetScriptEnvStop` | Jellyfin.Plugin.RunScripts/RunScripts.cs:92-97 | The stop record is the start record with only the completion flag set, to the event's value. |
| `ScriptEnv.StartFieldsSet` | Jellyfin.Plugin.RunScripts/RunScripts.cs:68-90 | In a start record, `UserId` and `MediaInfo` are never null and `PlayedToCompletion` always is. `PlaybackPercentage` is non-null exactly under its guard, and `MediaSource` exactly when a queued source matches. |
| `ScriptEnv.StopFieldsSet` | Jellyfin.Plugin.RunScripts/RunScripts.cs:92-97 | A stop record has exactly the start record's non-null fields plus `PlayedToCompletion`. |
| `ScriptEnv.SerializedKeys` | Jellyfin.Plugin.RunScripts/RunScripts.cs:129 | `JsonSerializer.Serialize(scriptEnv)` with no options writes a key for every property of the record, whatever its value. |
| `ScriptEnv.StartPayloadWritesNull` | Jellyfin.Plugin.RunScripts/RunScripts.cs:129 | As written, a start payload has a `PlayedToCompletion` key although that field is null, and start and stop payloads have the same keys. |
| `ScriptEnv.EmittedKeys` | Jellyfin.Plugin.RunScripts/RunScripts.cs:34 | With the `WhenWritingNull` options the constructor builds, a key is written exactly when its field is not null. |
| `ScriptEnv.StartKeys` | Jellyfin.Plugin.RunScripts/RunScripts.cs:34 | With null fields skipped, a start payload always has `UserId` and `MediaInfo` and never `PlayedToCompletion`. `PlaybackPercentage` appears exactly under its guard, and `MediaSource` exactly when a queued source matches. |
| `ScriptEnv.StopKeys` | Jellyfin.Plugin.RunScripts/RunScripts.cs:34 | With null fields skipped, a stop payload has the start payload's keys plus `PlayedToCompletion`, and nothing else. |
| `RunScripts.GetUserConfig` | Jellyfin.Plugin.RunScripts/RunScripts.cs:193-201 | Null when `Plugin.Instance` or the user array is null, or when no entry has the id. Otherwise the first entry with that id. |
| `RunScripts.OutcomeFor` | Jellyfin.Plugin.RunScripts/RunScripts.cs:101-142 | A user is skipped exactly when there is no configuration or the event's command is null or empty. An empty token list ends in the caught failure. Otherwise the executable is token 0, the arguments are the remaining tokens (null when there are none), and the environment is the event's record. |
| `RunScripts.Dispatch` | Jellyfin.Plugin.RunScripts/RunScripts.cs:99-190 | The loop produces one outcome per user of the event, in order. Each outcome depends only on that user, so a failing user never affects the others. |
| `RunScripts.BlankCommandFails` | Jellyfin.Plugin.RunScripts/RunScripts.cs:110-126 | A command of spaces passes the null-or-empty test but has no tokens. Reading token 0 then fails inside the `try`. |
| `RunScripts.QuotedCommandRunsAsWritten` | Jellyfin.Plugin.RunScripts/RunScripts.cs:116-126 | A command written as escaped, space-separated arguments runs exactly those arguments. |
| `Strings.Split` | Jellyfin.Plugin.RunScripts/EntryPoint.cs:63-64 | `Split(" ")` returns at least one piece, and no piece contains the separator. |
| `Strings.JoinSplit` | Jellyfin.Plugin.RunScripts/EntryPoint.cs:63-64 | Joining the pieces with the separator gives back the command string, so empty pieces from repeated spaces are kept. |
| `Strings.SplitJoin` | Jellyfin.Plugin.RunScripts/EntryPoint.cs:63-64 | Splitting the join of separator-free pieces gives back the pieces: the inverse round trip. |
| `EntryPoint.MatchLength` | Jellyfin.Plugin.RunScripts/EntryPoint.cs:143 | At a position, the pattern matches the shortest span made of `"Password":"`, at least one non-newline character, then `",`. There is no match when no such span exists. |
| `EntryPoint.ShortestMatchFrom` | Jellyfin.Plugin.RunScripts/EntryPoint.cs:143 | The lazy `.+?` grows one character at a time and stops at the first closing `",`. It gives up at a newline. |
| `EntryPoint.StripPasswords` | Jellyfin.Plugin.RunScripts/EntryPoint.cs:141-144 | Deleting the leftmost non-overlapping matches never makes the text longer. |
| `EntryPoint.StripChangesIffMatch` | Jellyfin.Plugin.RunScripts/EntryPoint.cs:143 | The filter returns its input unchanged exactly when no position matches. Otherwise the result is strictly shorter. |
| `EntryPoint.NoKeyUnchanged` | Jellyfin.Plugin.RunScripts/EntryPoint.cs:143 | Text that never contains `"Password":"` passes through unchanged. |
| `EntryPoint.RedactsField` | Jellyfin.Plugin.RunScripts/EntryPoint.cs:143 | A password property whose value has no newline and no inner `",` is deleted whole, and filtering continues after it. |
| `EntryPoint.EmptyPasswordSwallowsNextField` | Jellyfin.Plugin.RunScripts/EntryPoint.cs:143 | An empty password does not match alone. The match runs on to the next `",` and deletes the following property too. |
| `EntryPoint.EmptyPasswordAloneKept` | Jellyfin.Plugin.RunScripts/EntryPoint.cs:143 | `"Password":"",` with nothing after it is left in place. |
| `EntryPoint.GetUserConfig` | Jellyfin.Plugin.RunScripts/EntryPoint.cs:129-139 | Throws exactly when `Plugin.Instance` is null, because it is never tested. Otherwise the result is null when the array is null or has no matching entry, and is the first entry with the id when one exists. |
| `EntryPoint.LegacyOutcomeFor` | Jellyfin.Plugin.RunScripts/EntryPoint.cs:45-64 | The user is skipped when there is no configuration or the command is null or empty. Otherwise the executable is the text before the first space and the arguments are the other `Split(" ")` pieces; joining them with spaces rebuilds the command. The payload is the event text with passwords stripped. |
| `EntryPoint.Dispatch` | Jellyfin.Plugin.RunScripts/EntryPoint.cs:41-127 | With `Plugin.Instance` null and at least one user, the handler stops at the first lookup with nothing run. Otherwise it produces one outcome per user, in order. |
| `Revisions.SameUserLookup` | Jellyfin.Plugin.RunScripts/EntryPoint.cs:129-139 | Both revisions find the same entry while `Plugin.Instance` is set. When it is null, the older one throws and the newer one returns null. |
| `Revisions.PlainCommandsAgree` | Jellyfin.Plugin.RunScripts/EntryPoint.cs:63-64 | For commands without quotes and backslashes, the new tokens are the old pieces with the empty ones dropped. They are equal when there is no leading, trailing or doubled space. |
| `Revisions.SameInvocationForPlainCommand` | Jellyfin.Plugin.RunScripts/EntryPoint.cs:62-64 | For such a command, on a start event and on a stop event alike, both revisions pass the same executable and arguments to the process runner. |

## Left out

- Process execution by `Command.Run` is not modelled. This covers the 10-minute timeout, the exit code, capturing and logging stdout and stderr, and setting the `EVENT_ARGS` variable. It is OS I/O done by a foreign library. The model records only the arguments of the call, and any exception it raises is caught by the handler.
- JSON serialization is not modelled as text. The current revision's payload is given by its set of keys: as written, every property (`SerializedKeys`); with the unused `WhenWritingNull` options, the non-null fields (`EmittedKeys`). The older revision's payload is a parameter: the text the host serializer produced for the event.
- The numeric value of `PlaybackPercentage` is not computed. It is a double division, which divides by zero when the run time is 0. `Ratio` keeps only its two operands.
- Asynchronous execution is left out: the `async void` handlers, event subscription and unsubscription, and `Dispose`. These are host event plumbing with fire-and-forget concurrency. The two handlers of each revision are modelled as one loop, parameterized by the event kind.
- Logging is left out; it is a side effect only.
- `Configuration/runscripts.js` is not part of this model. It is configuration-page code.
- `Plugin.cs` and `PluginServiceRegistrator.cs` are not part of this model. They are the plugin singleton, its page registration, and dependency-injection registration.
- `ScriptEnv.GetScriptEnvStart`: the null dereference of `e.MediaInfo` outside the `try` is not modelled. The event always carries its media info here.
- `ScriptEnv.GetScriptEnvStop`: setting the property on the returned object is modelled as a record update. The object is fresh, so no alias can observe the change.
- `RunScripts.Dispatch`: this model does not cover an exception that escapes outside the `try`, such as from the lookup or the environment record. In particular, the event's `Users` (`RunScripts.cs:101`), the session's `NowPlayingQueueFullItems` (`:54`) and each queue item's `MediaSources` (`:56`) are plain sequences, so the null collections that these unguarded loops would dereference cannot be expressed.
- Null entries inside the user array are not modelled. Such an entry would throw in the `FirstOrDefault` predicate.
- A `Guid` is kept as an opaque number.
- Each session string that may be null is an `Option`.
- The session's user id is a plain `Guid`, so it is always present in the record.

## Behaviour worth noting

- **Blank commands.** Only `null` and `""` count as no command. A command of spaces is tokenized to nothing and then fails when token 0 is read inside the `try` (`RunScripts.BlankCommandFails`).
- **Quote test.** The quote test at `RunScripts.cs:223` also checks `!escapeNextChar`. That check is always true at that point, so an unescaped `"` simply toggles the flag.
- **Key names.** The JSON keys are the C# property names (`UserId`, `PlaybackPercentage`, …), since no naming policy is set.
- **Zero run time.** With `RunTimeTicks` equal to 0 and a positive position, the percentage division at `RunScripts.cs:73` gives an infinite double. The default serializer options refuse non-finite numbers, so serializing the record inside the `Command.Run` options callback (`:127-129`) throws. The `catch` at `:139` logs it, and no process starts. The model's `Invoked` outcome still records the call made to `Command.Run`, so `RunScripts.QuotedCommandRunsAsWritten` and the other lemmas about invocations say what is passed to the runner, not that a process is started in this case.
- **Serializer options.** The constructor builds null-skipping options (`RunScripts.cs:34`), but both handlers call `JsonSerializer.Serialize(scriptEnv)` without them, so null properties are written (see Findings).
- **Password redaction.** Redaction exists only in the older revision. The current revision serializes its own record instead and has no password filter.

## Findings

| source | as written | input that shows it | evidently intended | confidence | as-written member | corrected member |
|---|---|---|---|---|---|---|
| Jellyfin.Plugin.RunScripts/RunScripts.cs:129 | `_jsonOptions` with `WhenWritingNull` is built at :34 but never passed; :129 and :176 serialize with the default options, which write every property | any playback-start event: the payload holds `"PlayedToCompletion":null`, and a source-less event holds `"MediaSource":null` | null properties are left out of `EVENT_ARGS` | medium, not executed | `ScriptEnv.StartPayloadWritesNull` | `ScriptEnv.StartKeys` |
