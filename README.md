# Discord update reporter: the mod version checker

A model of the mod version checker of the Vintage Story server mod
"Discord Update Reporter" (`DiscordUpdateReporter/ModVersionChecker.cs`).
The checker looks up every installed mod in the official mod database
(the catalog), except the three reserved mods `game`, `survival` and
`creative`. It then does one of two things:

- posts an update report to a Discord webhook, via the `check-mods` command:
  - a summary embed with the up-to-date mods, the off-DB mods and their counts;
  - one detail embed per mod that needs an update, nine embeds to a message;
- posts one embed per found mod, ten to a message, via the `list-mods` command.

The model is split by component:

| module | what it holds |
|---|---|
| `Wrappers` | `Option`, the model of C# nullable values |
| `ModDb` | releases, catalog entries, installed mods, lookup responses, the `id@version` label |
| `Text` | decimal formatting, ordinal `StartsWith`, `IsNullOrWhiteSpace` |
| `Releases` | the stable recency sort, the latest release, the installed release, the outstanding releases, markers, tag text, the mod link |
| `Rendering` | the parts of a detail embed and a list embed that the checker decides |
| `Batching` | the two ways output is cut into messages, as independent definitions |
| `Fetch` | `GetAllModsFromDb` as a class over its cache, with the groups of four lookups |
| `Reconcile` | the classification loop of `CheckModsForUpdates` |
| `OffDb` | the off-DB list: `List.Remove` of found labels and of the reserved prefixes |
| `Summary` | the "Up-to-date Mods" field and the loop that builds it |
| `Emitters` | the detail-message loop, and `LogModsTo` with its `TrySend` |
| `Report` | `CheckModsForUpdates` as a whole and its counts |
| `Commands` | the two chat commands and the stored webhook URLs |

The model abstracts the outside world as follows:

- Catalog lookups are a function from mod id to `Response`. A lookup either answers, with a status and possibly a parsed mod, or throws (`Faulted`).
- Whether a webhook send throws is a function from the send's index to `bool`.
- Whether `new Uri` accepts a string is a predicate parameter.
- A release's creation time is an integer.

Behaviour of the code worth knowing, which the model keeps:

- **Missing or empty release list.** A found mod with no release list, or with an empty one, makes `Releases!` or `.First()` throw. The throw ends the whole report run, and nothing is sent; such a mod does not count as off-DB (`CheckModsForUpdates` returns None).
- **Installed release lookup.** The installed release of a mod that needs an update is found with `FirstOrDefault` over the releases in response order, so with two releases of the same version the one listed first in the response is taken, whatever their creation times (`Releases.InstalledRelease`).
- **A lookup that throws.** A transport error, a timeout or a failure reading the body faults the lookup's task. The rest of its group still finishes, then `Task.WhenAll` rethrows and `GetAllModsFromDb` ends without a result, so the update report or the mod list that asked for it sends nothing. The pairs found up to that group stay in the cache. When that cache holds at least one pair, every later command returns it without looking anything up, and the mods never looked up show as off-DB; when it is empty, the next command looks everything up again (`Fetch.ModDbClient.GetAllModsFromDb`).
- **Stored webhook URL.** The commands are described as using "the given, or last given" webhook URL (`ModVersionChecker.cs` line 52). The code never uses the stored URL: a missing argument is always an error (`Commands.StoredUrlNeverUsed`).

## Model

| member | source | states |
|---|---|---|
| Releases.SortByCreatedDesc | DiscordUpdateReporter/ModVersionChecker.cs:238-239 | the ordering is a permutation of the releases, newest first |
| Releases.SortStable | DiscordUpdateReporter/ModVersionChecker.cs:322-323 | releases created at the same time keep their response order (LINQ's `OrderByDescending` is stable) |
| Releases.Latest | DiscordUpdateReporter/ModVersionChecker.cs:238-239 | the latest release is one of the releases |
| Releases.LatestIsFirstNewest | DiscordUpdateReporter/ModVersionChecker.cs:311 | `OrderByDescending(..).First()` is the first release in response order among the most recently created |
| Releases.LatestIsNewest | DiscordUpdateReporter/ModVersionChecker.cs:238-239 | no release is newer than the latest one |
| Releases.IsUpToDate | DiscordUpdateReporter/ModVersionChecker.cs:238-239 | an up-to-date mod's installed version is in the release history |
| Reconcile.UpToDateIffFirstNewestMatches | DiscordUpdateReporter/ModVersionChecker.cs:238-243 | a mod is up to date exactly when the first-newest release carries its installed version |
| Releases.IndexOfVersion | DiscordUpdateReporter/ModVersionChecker.cs:310 | the index found holds the version and no earlier release does; None only when no release holds it |
| Releases.InstalledRelease | DiscordUpdateReporter/ModVersionChecker.cs:310 | the release found carries the installed version; None exactly when no release carries it |
| Releases.InstalledFileId | DiscordUpdateReporter/ModVersionChecker.cs:138-139 | a file id only when the history and the installed release exist, and then that release's file id |
| Releases.TakeWhileCreatedFrom | DiscordUpdateReporter/ModVersionChecker.cs:324 | the longest prefix created at or after the given time |
| Releases.Outstanding | DiscordUpdateReporter/ModVersionChecker.cs:322-324 | the listed releases are a prefix of the recency order |
| Releases.OutstandingShape | DiscordUpdateReporter/ModVersionChecker.cs:322-324 | the listed releases are newest first; with no installed release they are all the releases, each as often as in the response |
| Releases.OutstandingCreatedFrom | DiscordUpdateReporter/ModVersionChecker.cs:322-324 | when the installed release is known, a release is listed iff it is in the history and not older than the installed one |
| Releases.OutstandingEnds | DiscordUpdateReporter/ModVersionChecker.cs:322-324 | the listed releases start with the latest and include the installed one |
| Releases.MarkerFor | DiscordUpdateReporter/ModVersionChecker.cs:326-330 | installed marker iff the version is the installed one; latest iff not installed and equal to the latest version; intermediate otherwise |
| Releases.TagText | DiscordUpdateReporter/ModVersionChecker.cs:332 | "last ... first" for two or more tags, the only tag for one, empty otherwise |
| Releases.ModLink | DiscordUpdateReporter/ModVersionChecker.cs:113-115 | the link is the mod site followed by the URL alias, or by `show/mod/` and the asset id |
| Text.NatToString | DiscordUpdateReporter/ModVersionChecker.cs:259 | a non-empty string of decimal digits with no leading zero |
| Text.ParseNatToString | DiscordUpdateReporter/ModVersionChecker.cs:259 | reading the decimal text back gives the number |
| Text.IntToString | DiscordUpdateReporter/ModVersionChecker.cs:115 | non-negative numbers print as digits, negative ones with a leading '-' |
| Text.OptIntToString | DiscordUpdateReporter/ModVersionChecker.cs:115 | a null integer interpolates as the empty string, and only a null one does |
| Rendering.RenderLine | DiscordUpdateReporter/ModVersionChecker.cs:326-332 | a line carries the release's version, file, time, its marker and its tag text |
| Rendering.RenderLines | DiscordUpdateReporter/ModVersionChecker.cs:325-332 | one line per outstanding release, in order |
| Rendering.RenderDetail | DiscordUpdateReporter/ModVersionChecker.cs:309-339 | the detail embed links to the mod and lists one line per outstanding release, the latest first; the "out of date by" time exists iff the installed version is in the history, and is then the latest release's time less the installed release's, never negative |
| Rendering.RenderDetailLines | DiscordUpdateReporter/ModVersionChecker.cs:322-332 | the embed's lines are the outstanding releases rendered against the installed version and the latest release |
| Rendering.DetailMarkers | DiscordUpdateReporter/ModVersionChecker.cs:326-330 | for a mod needing an update, the first line is marked latest and, when the installed release is known, some line is marked installed |
| Rendering.RenderListEmbed | DiscordUpdateReporter/ModVersionChecker.cs:113-142 | the list embed carries the mod's name, link and installed version, and the installed release's file id |
| Rendering.ThreeReleaseScenario | DiscordUpdateReporter/ModVersionChecker.cs:309-332 | three releases out of creation order, the oldest installed: all three are listed newest first and marked latest, intermediate and installed |
| Summary.BuildUpToDateField | DiscordUpdateReporter/ModVersionChecker.cs:252-263 | the loop builds the field definition: at most three labels, then "and n more..." |
| Summary.UpToDateFieldShape | DiscordUpdateReporter/ModVersionChecker.cs:252-263 | the field is wrapped in backticks; its text ends in the "more..." tail iff there are more than three mods, and otherwise in a line break, or is empty |
| OffDb.IndexOf | DiscordUpdateReporter/ModVersionChecker.cs:237 | the first occurrence of a label |
| OffDb.RemoveFirstSlices | DiscordUpdateReporter/ModVersionChecker.cs:237 | `List.Remove` drops exactly the first occurrence, and nothing when there is none |
| OffDb.RemoveFirstMultiset | DiscordUpdateReporter/ModVersionChecker.cs:237 | one removal takes one copy of the label out of the multiset |
| OffDb.RemoveEachMultiset | DiscordUpdateReporter/ModVersionChecker.cs:232-237 | the off-DB list before the reserved removals is the multiset difference of installed and found labels |
| OffDb.FirstWithPrefix | DiscordUpdateReporter/ModVersionChecker.cs:264 | the first entry with the prefix, or None when no entry has it |
| OffDb.RemoveFirstWithPrefix | DiscordUpdateReporter/ModVersionChecker.cs:264 | `First` throws iff no entry has the prefix; otherwise exactly the first such entry is removed |
| OffDb.RemoveReservedPrefixes | DiscordUpdateReporter/ModVersionChecker.cs:264-266 | the three removals take out exactly three entries |
| OffDb.ReservedRemovalShape | DiscordUpdateReporter/ModVersionChecker.cs:264-266 | the three removals go through iff the list has an entry starting with each of "game", "survival" and "creative", and then they take out one such entry per prefix |
| OffDb.PrefixRemovalCanMissReserved | DiscordUpdateReporter/ModVersionChecker.cs:264 | a mod whose id starts with "game", listed before the base game, is removed instead of it |
| Reconcile.UpToDatePairs | DiscordUpdateReporter/ModVersionChecker.cs:238-242 | only found pairs that are up to date |
| Reconcile.NeedsUpdates | DiscordUpdateReporter/ModVersionChecker.cs:244 | only found pairs that are not up to date |
| Reconcile.Partition | DiscordUpdateReporter/ModVersionChecker.cs:235-245 | every found pair lands in exactly one of the two lists, as often as it was found |
| Reconcile.PartitionMembers | DiscordUpdateReporter/ModVersionChecker.cs:235-245 | membership in each list, in both directions |
| Reconcile.OneMore | DiscordUpdateReporter/ModVersionChecker.cs:235-245 | one loop turn appends to exactly one list and removes that mod's label once |
| Reconcile.ClassifyFetched | DiscordUpdateReporter/ModVersionChecker.cs:232-245 | the loop completes iff every found mod has a non-empty history, and then yields the two lists and the off-DB labels |
| Fetch.Started | DiscordUpdateReporter/ModVersionChecker.cs:177-182 | lookups are started only for installed mods that are not reserved |
| Fetch.StartedCounts | DiscordUpdateReporter/ModVersionChecker.cs:177-182 | every installed mod that is not reserved is looked up, as often as it is installed, and no reserved one is |
| Fetch.ResultsSound | DiscordUpdateReporter/ModVersionChecker.cs:191-213 | every cached pair comes from a successful, parsed lookup of its own mod |
| Fetch.GroupingShape | DiscordUpdateReporter/ModVersionChecker.cs:177-188 | groups of one to four lookups with no reserved mod; together with the group left un-awaited they are the started lookups, each once and in order; a group is left un-awaited only when the last mod is reserved |
| Fetch.ModDbClient.constructor | DiscordUpdateReporter/ModVersionChecker.cs:168 | the cache starts empty |
| Fetch.ModDbClient.GetModFromApi | DiscordUpdateReporter/ModVersionChecker.cs:191-213 | a pair is appended only for a success status with a parsed mod; the lookup reports a throw iff its task faults |
| Fetch.ModDbClient.AwaitGroup | DiscordUpdateReporter/ModVersionChecker.cs:185 | every lookup of the group finishes and adds its result; the await rethrows iff one of them threw |
| Fetch.ModDbClient.GetAllModsFromDb | DiscordUpdateReporter/ModVersionChecker.cs:169-189 | a non-empty cache is returned untouched; otherwise the cache holds the successful results of the awaited groups, in start order; with no throwing lookup the groups are the started lookups cut into fours, and otherwise the call ends without a result at the first group with a throwing lookup; starting from an empty cache the call fails exactly when a group the loop awaits has a throwing lookup, and never because of the trailing group left un-awaited when the last mod is reserved |
| Fetch.FailedAtAwaitedGroup | DiscordUpdateReporter/ModVersionChecker.cs:177-189 | the groups a failed call awaited are the first groups of the no-throw grouping, so one of those groups has a throwing lookup |
| Batching.ChunksShape | DiscordUpdateReporter/ModVersionChecker.cs:343-349 | the batches join back to the input, each holds one to cap items, all but the last are full, and there are none iff the input is empty |
| Batching.ChunksOfFull | DiscordUpdateReporter/ModVersionChecker.cs:343-349 | full batches followed by one non-empty short batch are the chunking of their concatenation |
| Batching.FullThenRestShape | DiscordUpdateReporter/ModVersionChecker.cs:144-154 | full batches, then one shorter (possibly empty) final batch, joining back to the input |
| Batching.FullThenRestOfFull | DiscordUpdateReporter/ModVersionChecker.cs:144-154 | full batches followed by the remainder are the full-then-rest cut of their concatenation |
| Emitters.RenderDetails | DiscordUpdateReporter/ModVersionChecker.cs:307-341 | one detail embed per mod needing an update, in order |
| Emitters.SendDetails | DiscordUpdateReporter/ModVersionChecker.cs:303-350 | the messages sent are the detail embeds cut into nines, in order, none empty, and none when no mod needs an update |
| Emitters.RenderList | DiscordUpdateReporter/ModVersionChecker.cs:111-142 | one list embed per found mod, in order |
| Emitters.ListSender.constructor | DiscordUpdateReporter/ModVersionChecker.cs:109 | no embeds are collected and no message has been tried |
| Emitters.ListSender.Add | DiscordUpdateReporter/ModVersionChecker.cs:116 | the embed is appended to the collected ones and no message is tried |
| Emitters.ListSender.TrySend | DiscordUpdateReporter/ModVersionChecker.cs:150-165 | with the count checked and fewer than ten embeds nothing happens; otherwise the embeds go out as one message and are cleared, whether or not the send throws |
| Emitters.LogModsTo | DiscordUpdateReporter/ModVersionChecker.cs:107-146 | the messages tried are the list embeds in full tens followed by the rest (sent even when empty), each with the given send outcome |
| Report.CheckModsForUpdates | DiscordUpdateReporter/ModVersionChecker.cs:216-350 | the run reaches its messages iff every found history is non-empty and the off-DB list has an entry starting with each of "game", "survival" and "creative"; the report then holds the counts, fields and detail messages defined above |
| Report.NeedsHaveReleases | DiscordUpdateReporter/ModVersionChecker.cs:309-311 | every mod needing an update has a non-empty history |
| Report.UpToDateCountMatches | DiscordUpdateReporter/ModVersionChecker.cs:281 | when every found mod is installed, the count in the field name equals the number of up-to-date mods |
| Report.FirstRunCountMatches | DiscordUpdateReporter/ModVersionChecker.cs:169-189 | the pairs a first lookup run caches satisfy that condition, so the count is right |
| Commands.HandleWebhookCommand | DiscordUpdateReporter/ModVersionChecker.cs:57-71 | a run starts iff the argument is present, non-blank and a valid URI, and then with it; a blank or missing argument is an error and keeps the stored URL; the stored URL changes only to the argument |
| Commands.StoredUrlNeverUsed | DiscordUpdateReporter/ModVersionChecker.cs:52-69 | the reply and the launched URL do not depend on the stored URL |
| Commands.RepeatIsStable | DiscordUpdateReporter/ModVersionChecker.cs:62-66 | repeating a command with the URL it stored gives the same outcome |
| Commands.ModVersionConfig.constructor | DiscordUpdateReporter/ModVersionChecker.cs:34-35 | both stored URLs start empty |
| Commands.ModVersionConfig.CheckMods | DiscordUpdateReporter/ModVersionChecker.cs:55-72 | the `check-mods` handler behaves as `HandleWebhookCommand` on the check URL and leaves the list URL alone |
| Commands.ModVersionConfig.ListMods | DiscordUpdateReporter/ModVersionChecker.cs:78-96 | the `list-mods` handler behaves as `HandleWebhookCommand` on the list URL and leaves the check URL alone |

## Left out

- HTTP requests, JSON deserialisation and webhook sends are parameters of the model. A lookup answers or throws; a send succeeds or throws.
- Fetch.ModDbClient.GetAllModsFromDb: the lookups of a group run concurrently and append to a shared list. The model runs them one at a time in start order, so it does not capture a different completion order or races on the list.
- Fetch.ModDbClient.GetAllModsFromDb: when the last installed mod is reserved, the final short group of lookups is never awaited. Its results may reach the cache later. The model returns that group as `pending` and leaves its results out of the cache.
- Dates: `Created` strings, `DateTimeOffset.Parse` and the unix timestamps in embeds are not modelled. A release's time is one integer, and sorting by the raw `Created` string is assumed to agree with sorting by the parsed time.
- `ToReadableString` durations, the run-time measurement, the footer texts and the "Checked n mod(s)" footer beyond its count are not modelled.
- Colours, emoji, markdown, the author, download and follow counts, and the homepage, source, issue and wiki fields of the embeds are not modelled; they are display only.
- Emitters.SendDetails: each detail embed is built with `new Uri` for the mod link and, when `LogoFile` is not null, for the thumbnail (lines 321 and 340). `new Uri` throws on an empty or relative `LogoFile` and on a link it cannot parse. The throw ends the detail loop after the messages already sent. The model takes every embed as built, so it promises one embed per mod that needs an update even where the code stops early.
- Emitters.LogModsTo: the list embed is built with `new Uri` for the mod link and, for a non-blank `LogoFile`, the thumbnail (lines 120 and 123), outside the `try` of `TrySend`. Such a throw ends the listing after the messages already sent. The model takes every embed as built.
- The off-DB field's value (the labels joined by line breaks) is not modelled; the model keeps the list itself.
- Report.CheckModsForUpdates: failures of the webhook sends are not modelled. An exception there ends the run of a fire-and-forget task.
- The `Api is not ServerCoreAPI` early return is not modelled: the checker always runs on a server.
- C#'s `StartsWith(string)` is culture-sensitive. The model uses an ordinal prefix test.
- Loading and saving the configuration file is not modelled, nor the Harmony field access to the server configuration. The URL passed to `new Uri` is judged by a predicate parameter.
- The code compiled only in DEBUG builds, `Dispose` with its cancellation token, the unused regular expression and `ModDbScreenshot` are not modelled.
- Privilege checks and argument parsing of the chat commands belong to the game's command system. An argument is modelled as present or missing.
