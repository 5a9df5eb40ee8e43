# Verified model of authome's authorization, logging, traffic and session logic

This project models the parts of the authome (auth2) single sign-on server whose correctness depends on
loops, mutable caches, bounded buffers and interleaved steps, and proves with Dafny that they do what the
server relies on.

- **Groups** (`GroupTree`, `GroupLoading`, `GroupSearch`, `UserEmails`, `EmailMeaning`, `GlobCompleteness`,
  `UserGroups`, `GroupNames`, `GroupClean`, `PublicGroupEdits`, `GroupExclusions`): the tree of user groups is
  loaded from its table, each group has email configurations with exclusions, `find_groups` searches the tree
  breadth first for the most specific groups of an email, and `clean` keeps every group inside its parent.
- **Authorization** (`Authorizations`, `OrderedDicts`, `MemoryCaches`, `AccessMeaning`): the nearest authorization
  above each group, the two evaluators of a request, and the bounded two-level caches in front of them.
- **Log sorter** (`RecordFiles`, `RecordOrder`, `LogSorter`, `SorterLimits`, `SorterChains`, `SorterBacklog`,
  `LogFiles`, `LogCombiner`, `LogProgram`): reading records from log files, the bounded-buffer sort with its side
  file of late records, and the merges.
- **Traffic** (`TrafficRecords`, `TrafficWindows`, `TrafficProgress`, `TrafficCounters`, `ReportPeriods`,
  `TrafficSums`, `TrafficReports`, `TrafficRuns`): counters per window of time in each process, the report periods,
  and the reports that are rolled up batch by batch.
- **Concurrent steps** (`TokenRenewal`, `TokenLifetimes`, `SessionMigration`, `SessionRaces`): compare-and-set
  renewal of an access token, and sessions that move between clusters while calls fail.
- **Schedulers and codec** (`Schedulers`, `IntegerCodec`).

`Wrappers`, `Times`, `Arithmetic`, `Totals` and `MapTotals` hold shared definitions, `SmallTrees` the tree of the
examples. `dafny verify dfyconfig.toml` checks everything.

How the model is built: groups are numbers, emails and patterns are strings, times are whole microseconds
(days for token dates) in a zone with a fixed offset. The objects that the source changes in place are
classes (`MemoryCache`, `TrafficMonitor`, `ReportJob`, `Clusters`, the two schedulers); its loops are methods
proved against functions of the inputs, and the theorems are lemmas about those functions. Regular
expressions, the database, HTTP, Redis, files and clocks are parameters: a regex is the set of strings it
matches, a table is a map or a sequence, a remote call is a step that may fail before or after its effect.

## Where the code and its intent differ

Each entry names the lemma that gives the exact condition, or the input, where there is one.

- `clean` admits children with members outside the parent. It keeps them inside exactly when whatever the domain,
  pattern or match-all exclusions of the parent take away from its users is also excluded address by address
  (`GroupExclusions.NestsExactly`). For a parent that `clean` itself has accepted that means: exactly when it
  excludes exact emails only (`GroupExclusions.AcceptedNestsExactly`).
- `clean` accepts edits after which the search cannot use the tree (`GroupClean.SavedIsValid` for the exact
  condition). Giving the public group other users is one: unless another group is public, the next load of the groups
  fails (`PublicGroupEdits.PublicGroupCanBeLost`; the guard at authome/models/models.py:2080 looks at new rows
  only). Another is a child that the cache takes for the public group, because its users were edited to `*` and its
  row comes last: it may be saved without a parent, which leaves two roots (`PublicGroupEdits.SecondRoot`). That all
  pairs of parent and child stay accepted holds for these edits as well.
- The containment loop of `UserEmailPattern` is sound but rejects contained patterns, except when the parent is
  text with one star at its end, or has an `@` right after its last star and only one repeated character between
  any two stars (`GlobCompleteness.CompleteExactly`).
- The log sorter can leave its output unsorted: the misordered file is merged as it is, without being sorted
  (`SorterLimits.SortCanFail`, `LogFiles.SortedFileCanFail` for inputs at any sizes). It does exactly when three
  records have falling keys, the first is flushed before the second is read, and the second before the third; when
  a record is flushed follows from the keys in front of it (`SorterBacklog.SortedByKeys`).
- `can_access` reads the groups key before the periodic refresh that runs inside `get_authorizations`
  (authome/models/models.py:1599, authome/cache/cache.py:300). A reload at that moment can store an entry of one
  tree under a key of the other (`MemoryCaches.ReloadDuringAccess`). `MemoryCaches.MemoryCache.CanAccess` says
  exactly when it does; never more than one entry is wrong (`MemoryCaches.FewStale`), until the next reload.
- `combinefiles` loops over the undefined name `files` (process_tcontrollog.py:163); it is read as the
  parameter `infiles`.
- `encode_integer` divides in floating point, so the round trip ends at base * (2^53 + 1)
  (`IntegerCodec.FirstFailure`); which numbers beyond are still decoded is `IntegerCodec.RoundTripExactly`.
- A call that flushes sets the window by its own start, after the calls that redis logged meanwhile. When one of
  those started in a later window its count is sent with the earlier one (`TrafficProgress.HeldInTimeExactly`,
  `TrafficProgress.LateFlush`).
- `TRAFFIC_MONITOR_INTERVAL` may be 86400 (authome/settings.py:500-506), but the `seconds` of that timedelta are
  0 and the window arithmetic divides by it; it is the only such value (`TrafficWindows.WholeDayDividesByZero`).
- `loadusertoken` compares a missing expiry date with a date, which raises, and never renews a token that is
  the empty string (`TokenRenewal.BadTokenOutcome`, `TokenRenewal.EmptyTokenLoops`): its loop ends exactly for all
  other tokens (`TokenRenewal.EndsExactly`). No code path of the repository writes an empty string as token.
- After a clock that went back `save2db` reads a misspelled attribute (authome/trafficdata.py:26) and raises, so
  batch ids never repeat; `TrafficReports.ReportJob.SaveRow` states why they must not, and `TrafficRuns.Serve` what
  follows for all runs.
- `get_remote_session` hands the message to `DebugLog.warning` twice on a failure other than an
  Auth2ClusterException (authome/cache/clustercache.py:457, authome/models/debugmodels.py:137), which raises, so
  `load` returns an empty session without looking at the current cluster; the model has this as a source request
  that raises.
- `delete_remote_session` names a helper that does not exist on its failure path
  (authome/cache/clustercache.py:476), so a failed deletion makes `load` return an empty session although the
  session has been moved; the model has this as a deletion that raises.
- Clusters that migrate one session from each other at the same time can delete all copies. That happens exactly
  when all copies lie in a set of slots from each of which a load moves into the set (`SessionRaces.LossExactly`).

## Model

| member | source | states |
|---|---|---|
| GroupLoading.LoadGroups | authome/models/models.py:1107-1114 | the loaded groups are exactly the rows; the public and the staff group are those of the last row that is one, and missing exactly when no row is one |
| GroupLoading.LastRows | authome/models/models.py:1107-1114 | the public group is the last row that takes everybody, and the staff group the last one with its name |
| GroupLoading.AddChildren | authome/models/models.py:1118-1122 | each child list holds the groups whose parent it is, in the order of the rows |
| GroupLoading.WithParentInOrder | authome/models/models.py:1118-1123 | roots and child lists are in the order of the rows |
| GroupLoading.RefreshCache | authome/models/models.py:1098-1125 | fails exactly when there are rows but no public group; otherwise groups, child lists, roots, public group and staff group are those of the rows |
| GroupLoading.ChildListsRight | authome/models/models.py:1119-1122 | a group is listed under a parent if and only if its row names that parent, and once |
| GroupLoading.LoadedMirrored | authome/models/models.py:1119-1123 | child lists and parent links mirror each other around one root if and only if exactly one row has no parent |
| GroupLoading.LoadedIsValid | authome/models/models.py:1098-1125 | the loaded tree is the one the search relies on if and only if only the public group has no parent and the links have no cycle |
| GroupLoading.RefreshedIsValid | authome/models/models.py:1098-1125 | what `refresh_cache` has loaded is the tree the search relies on if and only if it has one root, that is public, and no cycle |
| GroupTree.IsGroup | authome/models/models.py:1052-1063 | the walk up the parents answers exactly whether the other group is the group itself or an ancestor |
| GroupTree.AboveChain | authome/models/models.py:1052-1063 | two ancestors of one group are always comparable |
| GroupTree.ChildOnPath | authome/models/models.py:1052-1063 | the way up to a proper ancestor passes through one of its children |
| GroupSearch.AddGroup | authome/models/models.py:1195-1209 | the backward scan with its early stops computes keep, replace or append on any antichain |
| GroupSearch.AddRepresents | authome/models/models.py:1195-1209 | every `_add_group` step keeps the list equal to the deepest of all groups added so far, without duplicates and as an antichain |
| GroupSearch.RunRepresents | authome/models/models.py:1213-1228 | from any state of the queue the search ends with the deepest of all groups it has added |
| GroupSearch.FindMostSpecific | authome/models/models.py:1189-1228 | the search returns, each once, exactly the groups that contain the email with all their ancestors while no child does; the list is never empty |
| GroupSearch.DeepestHasNoMatchedChild | authome/models/models.py:1215-1228 | looking only at the children is enough: a matched group is deepest if and only if no child contains the email |
| GroupSearch.ClosureOfFind | authome/models/models.py:1213-1228 | the whole matched part of the tree can be recovered from the returned list |
| GroupSearch.SameMembersSameList | authome/cache/cache.py:368-380 | two emails whose lists have the same members get the same list in the same order, so a sorted id tuple is a sound cache key |
| UserEmails.ComputeGlobContain | authome/models/models.py:835-866 | the loop with its three indexes terminates and decides the containment scan |
| UserEmails.ParsedIsValid | authome/models/models.py:709-729 | text over the mail characters fails to parse exactly when it is a domain with a star; whatever else it parses to is a configuration the containment theorems cover |
| EmailMeaning.GlobPieces | authome/models/models.py:811-823 | a pattern matches piece by piece |
| EmailMeaning.PieceMeaning | authome/models/models.py:811-823 | a star matches any run of letters, digits and the five characters, and other text itself |
| EmailMeaning.ParsedMeaning | authome/models/models.py:709-729 | whatever class text is parsed to, it matches the emails that end with it when it is a domain, and otherwise those it matches as a pattern |
| EmailMeaning.OtherText | authome/models/models.py:709-729 | an empty line configures nothing, an address needs an `@`, and only `^` with `$` marks a regex |
| UserEmails.LostFails | authome/models/models.py:835-866 | once the child's `@` has been swallowed by a star, the loop answers False |
| UserEmails.StarTakesNext | authome/models/models.py:835-866 | after a mismatch the last star absorbs one more character and the consumed prefixes stay contained, or the scan is lost |
| UserEmails.ScanSound | authome/models/models.py:835-866 | if the consumed child prefix is contained in the consumed parent prefix and the scan succeeds, the whole child is contained in the parent |
| UserEmails.GlobContainSound | authome/models/models.py:825-866 | an accepted child pattern matches nothing that the parent pattern does not match |
| UserEmails.ContainSound | authome/models/models.py:748-866 | for all regex-free classes, when `contain` answers True every email the argument matches is matched by the receiver |
| EmailMeaning.ContainExactlyOthers | authome/models/models.py:737-834 | outside two patterns, or a domain in a pattern, `contain` answers True if and only if the argument matches nothing that the receiver does not match |
| EmailMeaning.ContainRegex | authome/models/models.py:737-834 | `contain` answers None if and only if a regex is involved and the receiver does not match all |
| GlobCompleteness.CompleteExactly | authome/models/models.py:825-866 | the loop accepts every contained pattern if and only if the parent is text with one star at its end, or has `@` right after its last star and one repeated character between any two stars |
| GlobCompleteness.ContainExactly | authome/models/models.py:709-866 | `contain` of a parsed pattern answers True for all parsed patterns that it contains, if and only if it has one of these two shapes |
| GlobCompleteness.CompleteParent | authome/models/models.py:825-866 | for these parents it accepts a pattern, or a domain with a star before it, if and only if it is contained |
| GlobCompleteness.IncompleteParent | authome/models/models.py:835-866 | every other parent contains a parsed pattern that the loop rejects |
| GlobCompleteness.TrackScans | authome/models/models.py:835-866 | for a parent with such a domain, the scan of a contained child stays on track: the piece after the last star is aligned with it, and the scan ends in True |
| GlobCompleteness.DoubledRejected | authome/models/models.py:835-866 | repeating an uneven piece of the parent gives a contained pattern that the loop rejects, because the star does not go back far enough |
| UserEmails.ContainIncomplete | authome/models/models.py:835-866 | one concrete contained pattern that the loop rejects, the simplest case of those under IncompleteParent |
| UserGroups.Contain | authome/models/models.py:1153-1187 | testing the shorter list first does not change who is a member: matched by users and by no exclusion |
| UserGroups.FindGroups | authome/models/models.py:1189-1230 | the imperative search over the real membership tests returns the specified list for every email |
| UserGroups.VisitedIsMatched | authome/models/models.py:1215-1219 | for a queued group the test of the group alone decides membership in it and all its ancestors |
| GroupNames.WalkUp | authome/models/models.py:926-935 | one walk up inserts names in front of those of its own walk and stops at the first listed name |
| GroupNames.GetPkAndNames | authome/models/models.py:918-936 | the names list and id set computed in place are the specified ones |
| GroupNames.WalkCollects | authome/models/models.py:926-935 | although it stops at a listed name, one walk completes the closure of ids |
| GroupNames.WalkLists | authome/models/models.py:926-935 | one walk names exactly the ancestors that earlier walks have not named, ancestors first |
| GroupNames.PkAndNamesMeaning | authome/models/models.py:918-936 | with unique names, the ids are exactly the groups and all their ancestors, and the names are theirs, once each, every group after its ancestors |
| GroupClean.Clean | authome/models/models.py:944-1046 | the checks run in the order of the code, the name first, and report the first one that fails; the cycle check is exactly "the new parent is not the group or below it" |
| GroupClean.CleanedMeaning | authome/models/models.py:944-963 | the members of an accepted group are those its edit names: its users, or everybody, without the excluded |
| GroupClean.AcceptedExactly | authome/models/models.py:944-1046 | an edit is accepted if and only if it has a name without tag, does not move the group below itself, excludes only from its users, and the pairs with its parent and each child are accepted |
| GroupClean.ErrorMeaning | authome/models/models.py:944-1046 | the error names a check that fails, and the earlier checks do not fail |
| GroupClean.ParentMeaning | authome/models/models.py:965-966 | a group gets the parent that is given, and otherwise the public group unless it is that itself |
| GroupClean.CheckChildren | authome/models/models.py:1017-1046 | the loop over the children reports the first child that is not inside the group |
| GroupClean.CheckCovers | authome/models/models.py:979-987 | every configuration has one of the parent's that does not answer False |
| GroupClean.CheckKeepsExclusions | authome/models/models.py:999-1015 | every parent exclusion that the child contains is excluded by the child |
| GroupClean.PairNested | authome/models/models.py:988-1015 | an accepted child has no member outside its parent when the parent excludes exact emails |
| GroupClean.PatternExclusionEscapes | authome/models/models.py:999-1015 | in particular, under a parent of everybody but one pattern, a child with any pattern that overlaps the excluded one and does not contain it is accepted and has a member the parent excludes |
| GroupClean.EscapeExists | authome/models/models.py:999-1015 | such patterns exist |
| GroupExclusions.NestsExactly | authome/models/models.py:979-1015 | all accepted children of a parent are inside it if and only if what its exclusions other than exact emails take from its users is also excluded address by address |
| GroupExclusions.AcceptedNestsExactly | authome/models/models.py:979-1015 | when the parent covers its own exclusions, as `clean` demands, all accepted children are inside it if and only if it excludes exact emails only |
| GroupExclusions.SingleAccepted | authome/models/models.py:999-1015 | a child with one address is accepted whenever the parent's users match it and no exclusion names it exactly |
| GroupExclusions.LongMatch | authome/models/models.py:732-866 | every domain, pattern or match-all configuration matches addresses beyond any length |
| GroupClean.SavedAcyclic | authome/models/models.py:965-977 | saving any accepted edit keeps the parent links free of cycles and the child lists right, whichever group is edited and whichever the cache takes for the public group |
| GroupClean.SavedIsValid | authome/models/models.py:946-1046 | the saved tree is one the search can use if and only if the edit leaves no group but the root without a parent and leaves the root public |
| GroupClean.CleanKeepsAccepted | authome/models/models.py:979-1046 | every accepted edit leaves every parent and child pair of the groups accepted, with any number of roots |
| GroupClean.EditsKeepAccepted | authome/models/models.py:946-1046 | the same after any sequence of accepted edits; and the tree stays usable when each of them meets the condition of SavedIsValid |
| PublicGroupEdits.PublicGroupCanBeLost | authome/models/models.py:946-1046 | an accepted edit of the public group after which no group is public |
| PublicGroupEdits.SecondRoot | authome/models/models.py:965-966 | an accepted edit after which two groups have no parent |
| GroupClean.FindIsDeepestOfAll | authome/models/models.py:1189-1230 | if all pairs were accepted, searching from the top loses nothing: the result is the deepest of all groups of the tree that contain the email |
| Authorizations.Allow | authome/models/models.py:1462-1484 | allow-all, deny-all, paths and excluded paths decide a path exactly as specified |
| Authorizations.AllowsExactly | authome/models/models.py:1462-1484 | for every path that starts with a slash, allow-all and deny-all are only shortcuts: a path is allowed if and only if it is listed, when paths are, and not excluded |
| Authorizations.AllowsAnyPath | authome/models/models.py:1462-1484 | for any other path they are the only difference |
| Authorizations.DomainMeaning | authome/models/models.py:200-255 | a suffix domain matches the domains that end with it, and no configuration but allow-all and exact ones an empty domain |
| Authorizations.PathMeaning | authome/models/models.py:1259-1343 | a prefix path matches the paths that begin with it |
| Authorizations.FindNearest | authome/models/models.py:1509-1529 | the walk up returns the first domain match of the nearest group that has one, and that group; no group before it has any |
| Authorizations.NearestIsFirst | authome/models/models.py:1509-1529 | the authorization of a group is the first one matching the domain of the nearest group above it, itself included, that has any; there is none if and only if no group up to the root has one |
| Authorizations.FindAuthorizations | authome/models/models.py:1486-1531 | the list for a user's groups, with deny-alls left out and an allow-all replacing everything |
| Authorizations.CollectGrants | authome/models/models.py:1486-1531 | leaving out deny-alls and stopping at an allow-all changes the answer for no path |
| Authorizations.CheckAuthorization | authome/models/models.py:1533-1591 | one entry per group with the nearest group that decided it, and the overall answer is true exactly when some entry allows |
| Authorizations.EvaluatorsAgree | authome/models/models.py:1486-1591 | the two evaluators agree if and only if the path is not under `/sso/`, the user is in no group, or access is granted anyway |
| Authorizations.CanAccessUncached | authome/models/models.py:1593-1618 | access means that some group's nearest matching authorization allows the path |
| AccessMeaning.MayAccessExactly | authome/models/models.py:1593-1618 | an email may access a path if and only if for one of its most specific groups the nearest authorization for the domain allows it |
| OrderedDicts.EnforceMaxsize | authome/cache/cache.py:506-513 | evicts the oldest entries only, down to the limit, and leaves the rest in order |
| MemoryCaches.SameKeySameGroups | authome/cache/cache.py:368-411 | emails with the same cached key have the same groups, names and ids |
| AccessMeaning.KeyMeaning | authome/cache/cache.py:368-380 | the key of an email is the ascending tuple of its most specific groups, each once |
| AccessMeaning.UncachedMeaning | authome/models/models.py:1211-1243 | what is looked up for an email: its most specific groups, the ids of all groups on whose way from the root it is a member, and their names in order |
| MemoryCaches.MemoryCache.GetEmailGroups | authome/cache/cache.py:404-411 | returns nothing or exactly what an uncached search of the loaded tree computes |
| MemoryCaches.MemoryCache.SetEmailGroups | authome/cache/cache.py:385-402 | adds an entry to the map for the public group alone or to the other one, and every entry of all maps stays right |
| MemoryCaches.PutEmail | authome/cache/cache.py:393-402 | remembers the key of an email and, when the map is full, evicts the oldest ones |
| MemoryCaches.MemoryCache.FindCachedGroups | authome/models/models.py:1211-1243 | the cached search equals the uncached one and leaves the email cached |
| MemoryCaches.MemoryCache.RefreshUsergroups | authome/cache/cache.py:545-557 | a reload replaces the tree and no entry of the old tree survives; also a cache with wrong authorization entries is right again afterwards |
| MemoryCaches.MemoryCache.RefreshAuthorizationCache | authome/cache/cache.py:568-572 | a due check reloads what has changed, keeps every right entry right and removes every entry that a reload has made stale |
| MemoryCaches.MemoryCache.GetAuthorizations | authome/cache/cache.py:295-301 | the lookup happens after the due refresh |
| MemoryCaches.MemoryCache.SetAuthorizations | authome/cache/cache.py:303-312 | stores the entry and, when the map is full, evicts the oldest ones |
| MemoryCaches.MemoryCache.CanAccess | authome/models/models.py:1593-1618 | without a reload of the groups inside the call the answer is the uncached one on the current tables, unless the entry met is stale; with one, the tree of the answer and of the only entry left, and all entries are right if and only if every email with that key in the new tree has that list |
| MemoryCaches.OneEmailDecides | authome/cache/cache.py:368-411 | one comparison decides that condition: emails with one key have the same authorizations |
| MemoryCaches.FewStale | authome/models/models.py:1593-1618 | after any run at most one entry can be stale, and none without a reload inside an access |
| MemoryCaches.Serve | authome/models/models.py:1593-1618 | over any run of lookups, accesses, evictions and refreshes every answer is the one computed afresh from what is loaded at that time, except that an access with a reload inside may use the tree before it, and one that meets the entry it left may get that; all other entries stay right |
| MemoryCaches.AnyAllowMeansAccess | authome/models/models.py:1612-1618 | some authorization of the list allows if and only if the email may access |
| MemoryCaches.StaleKeyIsWrong | authome/models/models.py:1599-1611 | an entry of the new tree under a key of the old tree breaks the cache: it denies an email that the new tree allows |
| MemoryCaches.ReloadDuringAccess | authome/cache/cache.py:295-301 | a concrete run with one reload inside one access ends in that state |
| RecordFiles.ReadRecord | process_tcontrollog.py:8-28 | the line loop returns the next record and stops right after it |
| RecordFiles.EndOfFileExactly | process_tcontrollog.py:8-28 | reading meets the end of the file if and only if no begin line has an end line after it |
| RecordFiles.LogIsRead | process_tcontrollog.py:8-28 | of a log exactly the records are read, in their order, whatever other lines stand between them |
| RecordFiles.RecordIsRead | process_tcontrollog.py:8-28 | a record is read with whatever other lines before it, and reading stops right after it |
| RecordFiles.BadRecordRaises | process_tcontrollog.py:17-19 | lines of a record that cannot be parsed raise |
| RecordFiles.MarkerMeaning | process_tcontrollog.py:16-23 | begin and end lines hold their words and, around them, only blanks |
| RecordFiles.SeparatedAppend | process_tcontrollog.py:61-67 | an output file has an empty line before every record but the first |
| RecordFiles.MisorderedAppend | process_tcontrollog.py:58-60 | the side file has one record right after the other |
| RecordFiles.NextIsRecord | process_tcontrollog.py:8-28 | whatever is read starts with a begin line and ends with the first end line after it |
| RecordFiles.NextIsInFile | process_tcontrollog.py:8-28 | the lines of a record stand together in the file, directly before what is still to be read |
| RecordFiles.ReadMisordered | process_tcontrollog.py:58-60 | reading back the side file gives exactly the records written to it |
| RecordFiles.ReadSeparated | process_tcontrollog.py:61-67 | reading back an output file with its blank lines gives exactly the records written |
| RecordFiles.ReadsRecords | process_tcontrollog.py:107-117 | the records read from any file survive being written and read again, in both file formats |
| RecordOrder.StableSortUnique | process_tcontrollog.py:55 | a sorted list that keeps the order of equal keys is the only one of its kind |
| RecordOrder.SortFacts | process_tcontrollog.py:55 | the sort by key is sorted and stable |
| RecordOrder.KeyOrder | process_tcontrollog.py:20 | Python's list comparison of the keys is a strict total order |
| RecordOrder.LessExactly | process_tcontrollog.py:20 | keys are compared at the first part that differs, a part at its first number or place that differs |
| RecordOrder.ElementLessExactly | process_tcontrollog.py:20 | lists are compared at the first place where they differ, and one that ends there comes first |
| LogSorter.SaveFirst | process_tcontrollog.py:57-69 | the write loop sends each record to the output or to the side file and removes it from the buffer |
| LogSorter.CountBelow | process_tcontrollog.py:54-58 | in a sorted buffer only as many records as precede a position can be below a bound its record exceeds |
| LogSorter.FlushBound | process_tcontrollog.py:37-58 | of a full buffer the records written first do not exceed any later input record when the input is ordered at distance buffersize - writebatchsize + 1 |
| LogSorter.Flush | process_tcontrollog.py:54-69 | sorts the buffer, writes its first records to the output or the side file and removes them |
| LogSorter.FlushKeeps | process_tcontrollog.py:54-69 | a flush loses nothing and keeps the output sorted and equal keys in order, and nothing goes to the side file when the buffer is not behind the output |
| LogSorter.FullBufferAhead | process_tcontrollog.py:37-69 | under the distance hypothesis what a full buffer writes stays ahead of the rest of the buffer and of all later input |
| LogSorter.FirstPass | process_tcontrollog.py:44-88 | the loop with its buffer computes the specified output and side file for any sizes |
| LogSorter.FirstPassFacts | process_tcontrollog.py:44-88 | the output is always sorted and output plus side file is a stable permutation of the input; under the distance hypothesis nothing is misordered |
| LogSorter.MergeSorted | process_tcontrollog.py:106-153 | the merge with the side file is sorted if and only if the side file is |
| LogSorter.MergeStable | process_tcontrollog.py:106-153 | records with equal keys keep their order through the merge |
| LogSorter.MergePass | process_tcontrollog.py:106-153 | the two-stream loop computes that merge |
| LogSorter.SortFileData | process_tcontrollog.py:30-155 | the result is always a stable permutation; it is the sorted input if and only if the records that the first pass of this input misorders come in key order, and always when records at the stated distance are in order |
| LogSorter.SortLog | process_tcontrollog.py:37-38 | with the sizes in the code, inputs ordered at distance 9901 come out sorted |
| SorterLimits.DistanceIsTight | process_tcontrollog.py:54-69 | the distance cannot be one larger: for all sizes and any records with three different keys an input ordered at that distance has a misordered record |
| SorterLimits.SortCanFail | process_tcontrollog.py:58-153 | for all sizes and any records with three different keys an input exists whose output is not sorted |
| SorterChains.SortedExactly | process_tcontrollog.py:30-155 | the output is the sorted input if and only if no record that has been overtaken, by a greater one written before it is read, overtakes another |
| SorterChains.MisorderedExactly | process_tcontrollog.py:44-88 | a record goes to the side file if and only if some record is overtaken |
| SorterBacklog.WrittenExactly | process_tcontrollog.py:54-69 | a record has been written if and only if some flush since it was read found fewer than writebatchsize records in front of it, a number computed from the keys of the input |
| SorterBacklog.MisorderedByKeys | process_tcontrollog.py:44-88 | a record goes to the side file if and only if, by these numbers, some record overtakes a later one |
| SorterBacklog.SortedByKeys | process_tcontrollog.py:30-155 | the output is the sorted input if and only if, by these numbers, no overtaken record overtakes another |
| LogFiles.ReadFile | process_tcontrollog.py:47-51 | reading to the end yields all records, and fails exactly when one cannot be parsed |
| LogFiles.FilesReadBack | process_tcontrollog.py:58-117 | the files that the passes write hold exactly the records written, for every input file that can be read |
| LogFiles.SortFile | process_tcontrollog.py:30-155 | from lines to lines: fails exactly when a record cannot be parsed, otherwise the output file reads as the specified list |
| LogFiles.SortedFile | process_tcontrollog.py:30-155 | the output file reads as the sorted input records if and only if the misordered records come in key order |
| LogFiles.SortedFileByKeys | process_tcontrollog.py:30-155 | the same for the lines of the input and the output file |
| LogFiles.SortedFileCanFail | process_tcontrollog.py:8-155 | for all sizes and any three readable records with different keys a log file exists whose output file is not sorted |
| LogFiles.FileDistanceIsTight | process_tcontrollog.py:8-69 | the distance cannot be one larger for log files either |
| LogCombiner.FindSmallest | process_tcontrollog.py:167-176 | the inner loop finds the first stream with the smallest next record |
| LogCombiner.CombineSorted | process_tcontrollog.py:157-186 | the merged file is sorted if and only if every input file is |
| LogCombiner.CombineStable | process_tcontrollog.py:157-186 | records with equal keys come out file by file in their order |
| LogCombiner.CombineFiles | process_tcontrollog.py:157-186 | no record is lost or added, and sorted files combine to the stable sort of all their records |
| LogProgram.CombinedExactly | process_tcontrollog.py:30-186 | the combined file of the sorted files is the stable sort of all records if and only if no input file has an overtaken record that overtakes another |
| LogProgram.SortAndCombine | process_tcontrollog.py:211-218 | the same from the lines of the input files to those of the combined file, which is written if and only if all input files can be read |
| TrafficRecords.AddToRecordReads | authome/cache/cache.py:835-895 | counting a call raises exactly the counters of its name, status and group that the level keeps, by one |
| TrafficRecords.KeptExactly | authome/cache/cache.py:806-950 | a level keeps exactly the counters that the first call of a name sets |
| TrafficRecords.AddToRecordBalanced | authome/cache/cache.py:957-985 | the requests of a record stay equal to the sums over its statuses and over its groups, at every level |
| TrafficRecords.CleanedBalanced | authome/cache/cache.py:738-743 | clearing keeps the keys and the balance |
| TrafficRecords.CleanedReads | authome/cache/cache.py:738-743 | after clearing every counter is 0 |
| TrafficRecords.NoTraffic | authome/cache/cache.py:745-750 | what is not flushed for lack of requests holds no count at all |
| TrafficWindows.WindowStartOnGrid | authome/cache/cache.py:801-803 | the next window lies on the grid and contains the call, also when the remainder is negative |
| TrafficWindows.WindowInDay | authome/settings.py:500-508 | with any interval that divides the day, the whole day included, no window crosses midnight |
| TrafficWindows.WholeDayDividesByZero | authome/settings.py:500-508 | every configured number gives an interval that divides the day, and the window arithmetic divides by zero if and only if the number is 86400 |
| TrafficWindows.ConfiguredExactly | authome/settings.py:500-508 | a number of seconds that divides the day is taken, and one hour for every other |
| TrafficWindows.FirstWindowOnGrid | authome/cache/cache.py:756-760 | the first window lies on the grid and contains the start time |
| TrafficProgress.EventsMade | authome/cache/cache.py:773-985 | flush by flush and then in memory stand exactly the calls made: those of the events and, of each flush that takes something, the nested ones |
| TrafficProgress.MadeOnce | authome/cache/cache.py:773-985 | every call of the events is made, and beyond them at most what is nested in them, nothing twice |
| TrafficProgress.EventsLoseNone | authome/cache/cache.py:787-793 | only failing pushes lose calls |
| TrafficProgress.HeldInTimeExactly | authome/cache/cache.py:798-805 | memory comes to hold a call from after its window if and only if a call that flushed moves the window back behind a nested call |
| TrafficProgress.EventsPunctual | authome/cache/cache.py:773-805 | when nested calls start before the window of their call ends, every payload holds only calls that started before its end |
| TrafficProgress.LateFlush | authome/cache/cache.py:773-805 | otherwise a call nested beyond that window is sent with the earlier window |
| TrafficCounters.TrafficMonitor.Count | authome/cache/cache.py:805-842 | a call is counted once in whichever of the three branches: every counter that the level keeps stays the number of calls in memory that it counts |
| TrafficCounters.TrafficMonitor.SaveTrafficData | authome/cache/cache.py:773-796 | flushes exactly when there are requests: what memory held goes into one payload of its window, to redis or lost, and all nested calls are logged after it |
| TrafficCounters.TrafficMonitor.LogRequest | authome/cache/cache.py:798-985 | flushes and moves the window exactly when it has ended, then counts the call once; the calls in memory, the flushes and the window are those of the specified step |
| TrafficCounters.TrafficMonitor.MoveWindow | authome/cache/cache.py:801-803 | the window is on the grid with start before end wherever nested calls have moved it |
| TrafficCounters.TrafficMonitor.Serve | authome/cache/cache.py:773-985 | over any run of calls and flushes the payloads in redis, the lost flushes and memory hold exactly the calls that are made, each once and in order, and nothing is lost when all pushes succeed |
| TrafficCounters.TrafficMonitor.Conserved | authome/cache/cache.py:773-985 | for every counter, in memory plus pushed plus lost equals the calls made |
| ReportPeriods.NextMonthStart | authome/models/trafficmodels.py:89-95 | months follow each other without gap, also across years |
| ReportPeriods.InPeriod | authome/models/trafficmodels.py:64-95 | every time lies in its period, which starts and ends at midnights |
| ReportPeriods.SamePeriod | authome/models/trafficmodels.py:64-95 | two times share a start if and only if one lies in the period of the other |
| ReportPeriods.WholeDays | authome/models/trafficmodels.py:64-95 | weeks, with either first day, and months are unions of whole days |
| ReportPeriods.PeriodIsDays | authome/models/trafficmodels.py:64-95 | start and end of each report are the midnights of the first day and of the day after the last |
| ReportPeriods.KnownWeekdays | authome/models/trafficmodels.py:64-78 | the weekdays of three known dates |
| ReportPeriods.NextDayIsNext | authome/models/trafficmodels.py:64-95 | civil days are consecutive, and each has the weekday after that of the day before |
| ReportPeriods.MonthLengths | authome/models/trafficmodels.py:84-95 | the months have the lengths of the calendar, with the leap years of all centuries |
| ReportPeriods.StartsOn | authome/models/trafficmodels.py:64-95 | a report starts at the midnight of the day, of the last Monday or Sunday, or of the first day of the month |
| TrafficSums.RollUp | authome/trafficdata.py:137-148 | over any rows a weekly or monthly sum is the sum of its daily sums |
| TrafficSums.ContributionExactly | authome/trafficdata.py:137-160 | a row counts in the report of its cluster and in that over all clusters, for the periods of its start, and in no other |
| TrafficSums.AllClusters | authome/trafficdata.py:139-145 | the report over all clusters is the sum of the reports of the clusters |
| TrafficReports.ReportJob.AddToReport | authome/trafficdata.py:146-160 | adds to the report from memory, table or a new row, and no other report or stored value changes |
| TrafficReports.ReportJob.AddRow | authome/trafficdata.py:137-193 | a row goes once into its daily, weekly and monthly report and, with a cluster, into those over all clusters |
| TrafficReports.ReportJob.Commit | authome/trafficdata.py:107-126 | one transaction stores every changed report together with the batch id and resets the flags |
| TrafficReports.CommitProcesses | authome/trafficdata.py:101-118 | moving the mark to a batch makes exactly the rows read since the last commit count as processed |
| TrafficReports.ReportJob.CommitIfNewBatch | authome/trafficdata.py:103-126 | a batch is committed only when complete, and a crash before the commit leaves the tables right |
| TrafficReports.ReportJob.PopulateReports | authome/trafficdata.py:80-194 | after every commit, and after a crash anywhere and a rerun, each report equals the sum over the rows up to the mark; with two steps for each row and one more, for every cluster, it gets to its end, and all rows of the clusters are in |
| TrafficReports.ReportJob.SaveRow | authome/trafficdata.py:19-37 | a new row keeps the reports right if and only if its batch is not processed yet or it counts nothing |
| TrafficReports.ReportJob.ReportsRollUp | authome/trafficdata.py:137-160 | a stored weekly or monthly report equals the sum of the stored daily reports of its days |
| TrafficRuns.Save2Db | authome/trafficdata.py:19-194 | a call raises without effect if and only if the clock went back; otherwise the rows are saved, every report stays the sum over the processed rows, and a call with enough steps gets to its end and has processed all rows of its clusters |
| TrafficRuns.OneMoreRun | authome/trafficdata.py:19-78 | a further run adds its rows and batch ids, or nothing when the clock went back |
| TrafficRuns.ClockBackExactly | authome/trafficdata.py:22-27 | the clock has not gone back if and only if every saved batch id is before the new one |
| TrafficRuns.Serve | authome/trafficdata.py:19-194 | over any calls, with clocks that go back and crashes anywhere, each saved row is counted at most once in each report; a last call with enough steps over all clusters leaves each report the sum of all saved rows |
| TokenRenewal.InvariantStep | authome/models/models.py:1941-1972 | every interleaved step keeps: at most one write has matched, and each process holds the token from before or the one renewed token |
| TokenRenewal.Dates | authome/models/models.py:1845-1856 | created and renewed tokens expire after 28 days, and a token is renewed only when it expires by the renewal date |
| TokenRenewal.RunInvariant | authome/models/models.py:1925-1972 | the same in every reachable state, for any number of processes |
| TokenRenewal.Outcome | authome/models/models.py:1925-1972 | a process that leaves the loop holds a token good beyond its renewal date, either the old one or the one in the row, which is good for more than a day |
| TokenRenewal.ExpiringOutcome | authome/models/models.py:1943-1972 | from an expiring or missing token, every process that leaves the loop holds the row's token after exactly one write, and none fails |
| TokenRenewal.BadTokenOutcome | authome/models/models.py:1943-1956 | from a token without expiry date or an empty token nothing is written and no process leaves with a token |
| TokenRenewal.NotStuck | authome/models/models.py:1943-1972 | a process in the loop always has a next step |
| TokenRenewal.RunsEnd | authome/models/models.py:1943-1972 | in any interleaving the processes together take at most six steps each, unless the token is an empty string |
| TokenRenewal.EmptyTokenLoops | authome/models/models.py:1943-1962 | with an empty token three steps lead back to the same state |
| TokenRenewal.EndsExactly | authome/models/models.py:1943-1972 | the work of all interleavings of the processes has a bound if and only if the token at the start is not an empty string |
| TokenLifetimes.LifeKeeps | authome/models/models.py:1881-2000 | every reachable state of processes that call again and again, however slow, keeps: held tokens were issued with their expiry dates, and the row is good for a lifetime less a day per renewal |
| TokenLifetimes.WritesBounded | authome/models/models.py:1943-1972 | over any time renewals are on the average at least a lifetime less a day apart, and a process that leaves the loop holds a token good beyond its renewal date |
| TokenLifetimes.OnlyExpiringReplaced | authome/models/models.py:1943-1956 | a conditional update never replaces a token that is good for more than a day |
| TokenLifetimes.EndedIsEnabled | authome/models/models.py:1985-1989 | when a call has ended the token in the row is enabled |
| SessionMigration.LoadKeepsSession | authome/sessionstore/clustersessionstore.py:109-283 | whichever accesses or calls fail, a session stored before a load is stored after it, only as copies of what was stored, and other sessions are untouched |
| SessionMigration.LoadedIsStored | authome/sessionstore/clustersessionstore.py:109-283 | what a load returns is what the current cluster then stores under the same key |
| SessionMigration.Migrated | authome/sessionstore/clustersessionstore.py:199-256 | without failures the session moves unchanged and the source keeps no copy |
| SessionMigration.LoadFinds | authome/sessionstore/clustersessionstore.py:109-283 | without failures a session is returned if and only if the source or the current cluster stores it |
| SessionMigration.LoadExactly | authome/sessionstore/clustersessionstore.py:109-283 | without failures, for every cookie and without default cluster too: where the session is looked for, what is returned, and what moves |
| SessionMigration.StandaloneSessionLoads | authome/sessionstore/clustersessionstore.py:114-178 | a session of the standalone server is loaded on every cluster |
| SessionMigration.ClusterSessionLoads | authome/sessionstore/clustersessionstore.py:179-266 | a session of any cluster is loaded on every cluster |
| SessionMigration.MoveExactly | authome/sessionstore/clustersessionstore.py:114-283 | with failures a session that has to move is returned if and only if it can be stored and its deletion does not raise |
| SessionMigration.StaysExactly | authome/sessionstore/clustersessionstore.py:114-283 | when no session comes from the source nothing moves, and the current cluster is asked unless the request to the source raises |
| SessionMigration.LoadTwice | authome/sessionstore/clustersessionstore.py:253-266 | presenting the old cookie again changes nothing and returns the same session |
| SessionMigration.MigrateBack | authome/testcluster.py:685-745 | migrating there and back restores the stores, and the cookie of the other cluster no longer works there |
| SessionMigration.RunKeepsSession | authome/sessionstore/clustersessionstore.py:109-283 | whatever fails in later loads, a session stored after some of the events is stored after all of them |
| SessionMigration.StoresAfterOne | authome/sessionstore/clustersessionstore.py:109-283 | a run is its events one after the other |
| SessionMigration.Clusters.Load | authome/sessionstore/clustersessionstore.py:109-283 | the branches with their accesses in order have the specified effect and result under every fault, also when the source request raises |
| SessionMigration.Clusters.Move | authome/sessionstore/clustersessionstore.py:127-178 | set comes before delete, and a raising access ends the load there |
| SessionMigration.Clusters.Serve | authome/sessionstore/clustersessionstore.py:109-283 | the stores after any run of loads and saves that do not overlap are the specified ones, and a session stored at any time of the run stays stored |
| SessionRaces.LoadIsItsSteps | authome/sessionstore/clustersessionstore.py:199-256 | the single accesses of one load, run alone, do what the load does |
| SessionRaces.LossExactly | authome/sessionstore/clustersessionstore.py:199-256 | some interleaving loses the session if and only if there is a set of slots with all copies from each of which some load moves into the set; failures add no other case |
| SessionRaces.LossIsCircular | authome/sessionstore/clustersessionstore.py:199-256 | in a run that loses the session, with whatever failures, the slots that ever held it form such a set |
| SessionRaces.CircleLoses | authome/sessionstore/clustersessionstore.py:199-256 | from any such set a run without failures deletes all copies |
| SessionRaces.AcyclicLoadsKeepSession | authome/sessionstore/clustersessionstore.py:199-256 | overlapping loads in any interleaving and with any failures keep the session stored when their moves form no cycle |
| SessionRaces.SameClusterLoadsKeepSession | authome/sessionstore/clustersessionstore.py:199-256 | in particular any overlapping loads on one cluster |
| SessionRaces.CyclicLoadsCanLoseSession | authome/cache/clustercache.py:433-485 | when some of the loads form a cycle of any length through all copies, an interleaving without failures loses the session |
| Schedulers.NextIntervalSlot | authome/cache/cache.py:66-76 | the computed next run is the least slot after the given time |
| Schedulers.IntervalTaskRunable.CanRun | authome/cache/cache.py:57-78 | for non-decreasing times the next run is the least slot after the call, and from the second call on the answer is true exactly when a slot lies since the previous one |
| Schedulers.NextHourSlot | authome/cache/cache.py:123-139 | stepping by one difference goes to the next listed hour and skips none |
| Schedulers.HourListTaskRunable.CatchUp | authome/cache/cache.py:123-139 | the catch-up loop terminates at the least listed hour after the call |
| Schedulers.HourListTaskRunable.CanRun | authome/cache/cache.py:111-143 | the same exactness for lists of hours |
| IntegerCodec.EncodeInteger | authome/utils.py:613-625 | the loop yields the digits of the float-quotient chain, "0" for 0 and nothing for a negative number |
| IntegerCodec.DecodeInteger | authome/utils.py:627-641 | the loop yields the positional value, and fails exactly on a character outside the alphabet |
| IntegerCodec.RoundsToNearest | authome/utils.py:623 | the float quotient is a double, and no double is nearer to the exact quotient |
| IntegerCodec.TiesToEven | authome/utils.py:623 | halfway between two doubles the even one is taken |
| IntegerCodec.NoLeadingZero | authome/utils.py:613-625 | the encoding of a positive number does not start with 0 |
| IntegerCodec.AlphabetRoundTrip | authome/utils.py:606-611 | every digit of the alphabet decodes to its index |
| IntegerCodec.AlphabetIs | authome/utils.py:606 | the characters of the alphabet |
| IntegerCodec.RoundTrip | authome/utils.py:613-641 | decoding the encoding gives the number back for all numbers below base * (2^53 + 1) |
| IntegerCodec.FirstFailure | authome/utils.py:623 | at base * (2^53 + 1) the round trip fails for every base, so the bound is exact |
| IntegerCodec.RoundTripStep | authome/utils.py:613-641 | for every number: it is decoded if and only if its float quotient is decoded to its exact quotient |
| IntegerCodec.RoundTripExactly | authome/utils.py:613-641 | as long as the float quotient is below the bound, a number is decoded if and only if its quotient is a double |
| IntegerCodec.RoundingsCancel | authome/utils.py:613-641 | beyond it two roundings can cancel: a number that is decoded although its quotient is not a double |
| IntegerCodec.Injective | authome/utils.py:613-625 | below the bound different numbers have different encodings |

## Left out

- Regular expressions: a regex email, domain or path is the set it matches; flags and compile errors are not modelled.
- Characters: the containment theorems cover letters, digits, `.`, `_`, `-`, `#` and one `@`; `+` has another meaning in the compiled expression, and the match at a trailing newline is not modelled.
- GroupClean.Clean: the order that `sort_key` gives the configurations is not modelled; whether the name holds a tag is a parameter, and of the white space that `strip` removes only space, tab and line ends are. The field validation of the framework is not part of this model.
- GroupExclusions.NestsExactly: addresses that start with `@` and groups with regex configurations are not considered.
- GroupClean.SavedAcyclic: `Saved` leaves the order of the child lists after a save open, and which group without a parent is the root when there are several.
- GroupLoading.RefreshCache: ids are positive, so a parent id of 0, which the code treats as none, does not occur.
- A second root next to the public group, left behind when a parent is deleted or by the edit of PublicGroupEdits.SecondRoot, is excluded from the search, which would fail on it.
- GroupNames.GetPkAndNames: joining the names with a separator and the NEW_GROUP_SEPARATOR variant are not modelled.
- MemoryCaches.MemoryCache.GetEmailGroups: the lazy first load of the tree is not modelled; the cache starts with a loaded tree.
- MemoryCaches.MemoryCache.SetEmailGroups: of the sorted id tuple only that it is a permutation of the ids is used.
- MemoryCaches.MemoryCache.CanAccess: per-user authorizations, the client-domain lookup and the response caches are not part of this model.
- Cache expiry by time, the other caches and threads inside one process are not modelled.
- RecordFiles.ReadRecord: of the white space that `strip` removes only space, tab and carriage return are; a last line without a line end is not modelled; such a record in the side file would join the next one. The regular expression and the JSON of the buckets are a parameter.
- Progress messages, file names and file handling of the sorter are not modelled, nor that a single file is not combined.
- TrafficCounters.TrafficMonitor.Count: total, minimum and maximum times are not modelled; 0 doubles as unset for the minimum.
- TrafficCounters.TrafficMonitor.SaveTrafficData: a failed push is taken to have had no effect on redis.
- TrafficReports.ReportJob.PopulateReports: reports per SSO method, times, averages and the status and domain dictionaries, of which one is shared between reports, are not modelled.
- TrafficReports.ReportJob.SaveRow: reading the flushed counters from redis into rows is not modelled.
- TrafficRuns.Save2Db: status rows without a saved batch id, which some databases sort first, are not modelled.
- ReportPeriods.InPeriod: the limits of the calendar at years 1 and 9999 are not modelled.
- TokenRenewal.Outcome: rows are not deleted during a run, and a run lasts less than the token lifetime minus a day; each process calls once, and a disabled token is not enabled after the loop (TokenLifetimes has both and any length); connection errors and the user cache are not modelled.
- TokenLifetimes.WritesBounded: generated tokens are taken to be new; rows are not deleted.
- SessionMigration.Clusters.Load: expiry times, the previous session cache, cookies, signatures and the user cache are not modelled; all clusters agree on the default cluster.
- SessionRaces.AcyclicLoadsKeepSession: sessions saved or removed by other requests between the steps are not modelled.
- IntegerCodec.EncodeInteger: quotients beyond the largest double, where the division overflows, are not modelled.
- Schedulers.HourListTaskRunable.CanRun: sorting and de-duplicating the configured hours is not modelled.
- Administration pages, identity providers, user flows, captcha and settings would add only easy members.
