# spond-webcal: verified model

This project models the three stateful parts of spond-webcal and proves properties of them in Dafny.
`dafny verify dfyconfig.toml` checks everything.

**CalDAV handler.** Each user has an in-memory file tree, filled from the resource store on first use.
A request is cleaned to a (user, resource) pair, checked against If-Match using the *store*, answered
from the *tree*, and mirrored to the store if it succeeded. `CalDav` and `CalDavRuns` describe one
request as a step on (trees, rows), whatever fails on the way; `CalDavUpdates` says what an update comes
to in terms of the If-Match field and of what is stored; `Handler` is the mutable handler over
either store, whose request method computes exactly that step. `FileTree` holds the tree and its
hydration, `Paths` the path handling, `EntityTags` the tags and the If-Match decision,
`ResourceStores` the two stores and the interface they share.

**Export pipeline.** `EventFetch` (group-by-group fetch), `EventViews` (status, group, split, sort),
`AccessScope` (token scopes), `IcsText`, `IcsDocument`, `IcsRoundTrip` and `EventUids` (the iCalendar
printer, an RFC 5545 reader written independently of it, and the UIDs of a calendar) and `TokenExport`,
which composes them into the export behind an access token.

**Token and sync stores.** `AccessTokens`, `UserTokens`, `EventCache` and `SyncWorker`.

`Text`, `Lists` and `FilterLists` hold the string and list operations the rest leans on.

## How the model reads the code

- Objects whose methods update fields are classes (`MemFS`, `PersistingHandler`, `RequestContext`,
  `StatusRecorder`, the six stores). Each method is proved against a function of the old state, and the
  run-level theorems are about those functions. Go's arbitrary map iteration order is an arbitrary
  choice in the loops.
- The content hash, the Spond API, the scope decoder, clock readings, failing store calls, unreadable
  bodies and cancellation are parameters. No property assumes that the hash is injective: where it
  matters the conclusion speaks of equal hashes. Every CalDAV request carries the failures it meets
  (`CalDav.Env`), so a run may have failures at any point.
- The tree behind the WebDAV library follows RFC 4918 (GET, HEAD, POST, PUT, DELETE, MKCOL; DELETE of a
  collection removes everything below it). The library itself is not part of this model. Where RFC 4918
  leaves it a choice (section 9.7.2, PUT to a collection) or the library judges by its own tag (a read
  with If-Match), its answer is a parameter of the request.
- The handler takes a store interface; `ResourceStores.ResourceStore` is that interface over the memory
  store and the database store, and the theorems about the handler hold for both.
- Times are nanosecond counts; a printed time also carries its UTC civil fields.

## What turned out false, and exactly when

- *Cache and store agree after every request.* Three requests part them, and no other
  (`ServeCoherenceExact`, over whole runs `RunCoherenceExact`):
  an unconditional DELETE of a collection with stored files below it, which the tree loses and the store
  keeps; an empty PUT onto a collection, if the library answers it as a success; and an update whose
  write to the store fails, since that error is discarded. `DropReachable`, `PutOnCollectionReachable`
  and `LostWriteReachable` reach each of them from an empty store. `DropBreaksRestart` shows that a PUT
  on the path of the dropped collection leaves rows that cannot be hydrated, so after a restart the user
  gets 500 for every request. `PutOnCollectionBreaksRestart` shows the same of a row on a collection with
  stored files below, and `LostWriteUndone` that a lost write is served under the tag of the old content
  until a restart undoes it. The first two witnesses start with MKCOL: they are inputs of the handler,
  and the router in front of it (internal/web/server.go:81-82), a library that is not part of this
  model, may stop that method.
- *A restart is invisible.* Collections with no stored file below them are forgotten; reads of anything
  else answer the same (`RestartExact`). `RestartForgets`: after MKCOL a GET of the collection is answered
  with 405, after a restart with 404. (Again MKCOL is an input of the handler.)
- *Resource paths have ordinary segments.* The resources `.` and `..` name the root of the tree
  (`ResultOrdinaryExact`). The server mounts `/caldav` and `/caldav/*`, and a request for
  `/caldav/../caldav.` reaches the first of them (`DotReachable`).
- *Different clean paths are different resources.* The prefix is cut as text, so `/caldav/../caldavx/f`
  addresses the same resource as `/caldav/x/f` (`AddressedExact`, `AliasReachable`).
- *A sync never uses a token that expires within 30 seconds.* At the exact boundary the code falls
  through to the access token (`ChooseTokenExact`, `ChooserBoundary`).
- *The event cache and the in-memory store agree on the last sync.* Not when a sync brings no event with
  an id and is stamped with a time the memory store did not report before (`SyncAgreementExact`,
  `EmptySyncDisagrees`). Over whole runs the cache reports the latest sync that brought one
  (`SyncStatusExact`).
- *Printed text is TEXT in the sense of RFC 5545.* Control characters other than tab and line breaks are
  printed as they are (`EscapeControlsExact`, `BellPrinted`).
- *The events of a calendar have distinct UIDs* (section 3.8.4.7 of RFC 5545). Fetching compares ids as
  they are and the printer trims them, and the UID made up for an event without an id is its second and
  sanitised heading. `PrintedUidsDistinct` says exactly when two events share one; ids `a` and `a` with
  a space after it do (`SpacedIDsClash`).

## Model

| member | source | states |
|---|---|---|
| Paths.NormalizeReadsSegments | internal/caldav/path_and_fs.go:13-40 | for every request path, absolute or not and clean or not, the string surgery gives the user and resource read off the cleaned segments after the prefix |
| Paths.AliasingExact | internal/caldav/path_and_fs.go:13-40 | two request paths address the same non-empty resource iff they leave the same segments or one is the legacy `/caldav/f` spelling of the other's `/caldav/{default}/f` |
| Paths.AddressedExact | internal/caldav/path_and_fs.go:14-25 | paths under the prefix leave the same segments iff their cleaned forms are equal or exactly one of them lost the slash after the prefix |
| Paths.ResultOrdinaryExact | internal/caldav/path_and_fs.go:28-39 | the resource has ordinary segments only, iff the request was not `/caldav.` or `/caldav..`, iff it does not name the root |
| Paths.HandlerSeesHydratedPath | internal/caldav/path_and_fs.go:42-58 | the path the WebDAV handler sees after rewriting and prefix stripping is the node hydration writes |
| Paths.CanonicalPath | internal/caldav/path_and_fs.go:37-39 | `/caldav/{user}/{segments}` reaches that user and that resource, whatever the default user |
| Paths.OneSegment | internal/caldav/path_and_fs.go:24-39 | `/caldav/{user}` is that user's root; with a dot in the segment it is a file of the default user |
| Paths.RootOfDefault | internal/caldav/path_and_fs.go:13-26 | the mount itself, a relative path and any path whose first segment does not start with the prefix are the default user's root |
| Paths.CleanDropsEmpty | internal/caldav/path_and_fs.go:14 | cleaning removes a dot or empty segment and nothing else |
| Paths.CleanDropsParent | internal/caldav/path_and_fs.go:14 | cleaning removes a dot-dot segment together with the segment before it |
| Paths.DotReachable | internal/caldav/path_and_fs.go:24-35 | the mounted request `/caldav/../caldav.` addresses the resource `.`, which is the root of the tree |
| Paths.AliasReachable | internal/caldav/path_and_fs.go:24-39 | the mounted requests `/caldav/../caldavx/f` and `/caldav/x/f` address one resource |
| EntityTags.IfMatchDecision | internal/caldav/etag.go:14-32 | on every well-formed If-Match list (section 13.1.1 of RFC 9110) cutting at commas accepts iff the resource exists and the list holds its tag under strong comparison, even with commas in tags, weak tags and empty elements; `*` accepts iff it exists |
| EntityTags.FieldDecision | internal/caldav/etag.go:14-32 | for an absent field, `*` and every well-formed list: the text is empty iff the field is absent, and any other is satisfied iff the condition of section 13.1.1 of RFC 9110 holds |
| EntityTags.SentTagDecision | internal/caldav/etag.go:9-32 | a tag sent back as received passes iff the resource exists with content of that hash |
| FileTree.WriteResourceExact | internal/caldav/path_and_fs.go:57-97 | writing a stored file fails iff a collection is in its place or a file is in the place of an ancestor; otherwise exactly the file and its ancestors are added |
| FileTree.HydrateExact | internal/caldav/server.go:73-77 | hydrating any list of resources succeeds iff no path is a proper prefix of another, and builds a well-formed tree of exactly those files and their ancestors |
| FileTree.HydrationOrderIndependent | internal/caldav/server.go:67-77 | every listing of a user's rows, in any order, hydrates to one and the same tree, or fails in every order |
| FileTree.MemFS.MakeAll | internal/caldav/path_and_fs.go:77-97 | the loop makes each ancestor in turn, tolerating existing ones, and fails iff one cannot be made |
| FileTree.MemFS.WriteStored | internal/caldav/path_and_fs.go:57-75 | writes one stored resource with its ancestors into the tree, or reports failure |
| FileTree.MemFS.HydrateFrom | internal/caldav/server.go:73-77 | the hydration loop succeeds and leaves the tree that writing all resources one after another gives |
| CalDav.UserServeExact | internal/caldav/server.go:89-120 | one request, with whatever failures it meets, keeps a user's tree and rows in agreement iff it is not an unconditional DELETE of a collection with stored files below, an accepted empty PUT onto a collection, or an update that changes content and whose write fails |
| CalDav.UserConditional | internal/caldav/http_helpers.go:7-18 | an update whose If-Match is one sent tag succeeds and is persisted iff the stored content has that tag, else 412 and no row changes |
| CalDav.UserRestart | internal/caldav/server.go:55-87 | a read from the rehydrated tree differs iff it addresses a collection with no stored file below |
| CalDavUpdates.UpdateExact | internal/caldav/http_helpers.go:7-18 | over the whole handler, for an absent field, `*` or any well-formed list: an update of a stored resource, or one with a condition, succeeds and writes the body or removes the row iff the condition holds for what is stored; else 412, and tree and rows stay |
| CalDavUpdates.UserUpdateExact | internal/caldav/server.go:100-119 | the same for one user's tree and rows |
| CalDavUpdates.UserPutServed | internal/caldav/server.go:100-119 | a PUT whose condition holds: the body in tree and row with 201 or 204 and the tag of the body, if there is a collection to hold the file and none in its place; an empty row if the library accepts an empty body on a collection; else 405 or 409 and no change |
| CalDavUpdates.UserDeleteServed | internal/caldav/server.go:100-119 | a DELETE whose condition holds removes exactly what is at the path and below it from the tree and the row of the path from the store, or is answered 404 if there is nothing |
| CalDavUpdates.NewResourceExact | internal/caldav/server.go:89-120 | unconditional updates of what is not stored: a PUT is stored and answered 201 iff there is room for the file or an empty body is accepted on a collection; a DELETE is answered 204 iff a collection is there, and leaves the rows |
| CalDavUpdates.FailuresAnswered | internal/caldav/handler_flow.go:20-69 | a failing listing or lookup is answered 500 and an unreadable body 400, with rows and tree unchanged |
| CalDavUpdates.DeleteThenGet | internal/caldav/handler_flow.go:71-78 | after a successful DELETE there is no row, and the next GET of the path is answered 404 |
| CalDavUpdates.MkcolThenPut | internal/caldav/server.go:89-120 | right below a collection just made an unconditional PUT is stored and answered 201 |
| CalDavRuns.ServeCoherenceExact | internal/caldav/server.go:89-120 | over all users and all failures: a request keeps every cached tree equal to that user's rows iff it does not drop files, put a row on a collection or lose a write |
| CalDavRuns.RunCoherenceExact | internal/caldav/server.go:89-120 | over every run, with failures anywhere in it: cache and store agree at every point iff no request of the run diverges in one of these three ways |
| CalDavRuns.ServeIsolated | internal/caldav/handler_flow.go:20-37 | a request changes no other user's tree or rows, in any state |
| CalDavRuns.RunIsolated | internal/caldav/server.go:55-87 | a run of requests addressed to other users leaves a user's tree and rows as they were |
| CalDavRuns.ReadServesStore | internal/caldav/handler_flow.go:39-54 | in a coherent state, unless the listing or the lookup fails or the library refuses the If-Match, a read succeeds iff the resource is stored; GET sends the stored bytes and the tag of the bytes it sends; HEAD sends no body |
| CalDavRuns.PutThenGet | internal/caldav/handler_flow.go:51-78 | after a successful PUT that leaves no row on a collection the next GET of the path returns the bytes put and the tag the PUT answered |
| CalDavRuns.ConditionalStep | internal/caldav/server.go:100-119 | a conditional update takes effect iff the current content has the tag; otherwise 412 and the store is unchanged |
| CalDavRuns.NoLostUpdate | internal/caldav/server.go:100-119 | read, any harmless run, failures included, then update with the tag read: it succeeds iff the content still has the hash of the bytes read, else 412 and an unchanged store |
| CalDavRuns.RestartExact | internal/caldav/server.go:24-45 | a read answers the same before and after a restart iff it does not address a collection with no stored file below |
| CalDavRuns.RestartServesStored | internal/caldav/server.go:55-87 | at every point of a harmless run a fresh handler serves every stored resource with the same bytes and tag |
| CalDavRuns.DropBreaksRestart | internal/caldav/handler_flow.go:71-78 | after a DELETE that drops files, a PUT on its path succeeds and from the next restart every request of the user is answered 500 |
| CalDavRuns.DropReachable | internal/caldav/handler_flow.go:71-78 | such a DELETE is reachable from the empty store: MKCOL, PUT below it, DELETE of the collection |
| CalDavRuns.PutOnCollectionReachable | internal/caldav/handler_flow.go:71-78 | a row on a collection is reachable from the empty store: MKCOL, then an empty PUT that the library accepts |
| CalDavRuns.LostWriteReachable | internal/caldav/handler_flow.go:71-78 | a lost write is reachable from the empty store: one PUT while the write fails |
| CalDavRuns.PutOnCollectionBreaksRestart | internal/caldav/handler_flow.go:71-78 | an accepted empty PUT onto a collection with stored files below is answered 201, and from the next restart every request of the user is answered 500 |
| CalDavRuns.LostWriteUndone | internal/caldav/handler_flow.go:71-78 | a PUT whose write fails is answered as a success; GET then sends its bytes under the tag of the old ones, and after a restart the old bytes or 404 |
| CalDavRuns.RestartForgets | internal/caldav/server.go:55-87 | from the empty store, GET of a collection just made is 405 before a restart and 404 after it |
| Handler.NewHandler | internal/caldav/server.go:24-45 | fails iff there is no store or the default user's rows cannot be listed or hydrated; otherwise starts coherent over a coherent store |
| Handler.PersistingHandler.GetUserHandler | internal/caldav/server.go:55-87 | returns the cached tree or hydrates it from the listed rows; a failed listing or hydration caches nothing; no other user is touched |
| Handler.PersistingHandler.LoadAddressee | internal/caldav/handler_flow.go:20-37 | finds the tree of the addressed user exactly when the step function does, and the same tree |
| Handler.PersistingHandler.LoadCurrentResource | internal/caldav/handler_flow.go:39-49 | the stored content of the addressed resource, whether it is stored, or that the lookup failed |
| Handler.PersistingHandler.ServeHTTP | internal/caldav/server.go:89-120 | over either store and with any failures, response and new state of the mutable handler are those of the step function, so all run theorems apply to it |
| Handler.PersistingHandler.ServeUser | internal/caldav/server.go:95-119 | the sequence of lookup, precondition, body, serve and persist, each of which may fail, has the effect of one user step |
| Handler.PersistingHandler.PersistMutation | internal/caldav/handler_flow.go:71-78 | PUT stores the body, DELETE removes the row, anything else and a failing write leave the store; the error is discarded |
| Handler.PrepareRequestBodyAndResponseETag | internal/caldav/handler_flow.go:51-69 | false iff the body of a PUT cannot be read; PUT answers with the tag of its body, GET and HEAD of a stored resource with the tag of the stored content, anything else without one |
| Handler.StatusRecorder.WriteHeader | internal/caldav/http_helpers.go:27-34 | records the status and puts the override, if any, in place of the tag |
| Handler.StatusRecorder.Write | internal/caldav/http_helpers.go:36-42 | a first write without a status counts as 200 |
| ResourceStores.MemoryResourceStore.ListResources | internal/caldav/store_memory.go:17-30 | lists each of the user's resources once, in an arbitrary order |
| ResourceStores.MemoryResourceStore.PutResource | internal/caldav/store_memory.go:52-65 | sets one path of one user and nothing else |
| ResourceStores.MemoryResourceStore.DeleteResource | internal/caldav/store_memory.go:67-76 | removes one path of one user and nothing else |
| ResourceStores.CalDAVStore.ListResources | internal/db/db.go:72-91 | a listing of the user's rows of the map the table stands for, or an error |
| ResourceStores.CalDAVStore.GetResource | internal/db/db.go:93-106 | the content the map holds under user and path, whether there is one, or an error |
| ResourceStores.CalDAVStore.PutResource | internal/db/db.go:108-135 | query then create or save: updates the first matching row under its id or appends a row with a new id, and does what the memory store does; a failing query or write changes nothing |
| ResourceStores.CalDAVStore.DeleteResource | internal/db/db.go:137-146 | removes the matching rows, keeps ids ascending, and does what the memory store does; a failure changes nothing |
| ResourceStores.RowStoreRefinesMap | internal/db/db.go:72-146 | every operation sequence is answered alike by table and map, and the table never holds two rows for one user and path although its index is not unique |
| ResourceStores.StoresIndistinguishable | internal/caldav/store_memory.go:17-76 | starting empty, no sequence of List, Get, Put and Delete tells the two stores apart |
| ResourceStores.ListRowsListing | internal/db/db.go:72-91 | what the table lists for a user is a listing of that user's rows, each path once, so hydration from the database is hydration from the map |
| IcsText.EscapeRoundTrip | internal/web/ical_export.go:82-93 | for every string, reading the escaped text by section 3.3.11 of RFC 5545 gives the trimmed value with each line break one LF, as a single list value, and the text has no raw line break |
| IcsText.EscapeControlsExact | internal/web/ical_export.go:82-93 | the escaped text has no control character iff the trimmed value has none besides line breaks |
| IcsText.BellPrinted | internal/web/ical_export.go:82-93 | a bell character is printed as it is, outside the TEXT grammar |
| IcsDocument.BuildICSCalendar | internal/web/ical_export.go:30-76 | the printer's loop produces the document the round trip is about |
| IcsDocument.DescriptionReads | internal/web/ical_export.go:46-52 | the description read back is the group's name and the status, each after its label on a line of its own, one of them if the other is blank, none if both are |
| IcsDocument.BuildSanitizedUID | internal/web/ical_export.go:95-116 | the character loop computes the sanitised heading |
| IcsDocument.SanitizedShape | internal/web/ical_export.go:95-116 | only lower-case letters, digits and hyphens, with no hyphen at either end |
| IcsDocument.SanitizedContent | internal/web/ical_export.go:95-116 | sanitising keeps the lower-case trimmed heading from its first to its last letter or digit, character by character, with a hyphen for every other character; `event` if blank |
| IcsDocument.NatTextReads | internal/web/ical_export.go:43 | the printed second of a made-up UID reads as that number |
| IcsDocument.StampLayout | internal/web/ical_export.go:78-80 | a printed time is year, month, day, `T`, hour, minute, second, `Z` in the places section 3.3.5 of RFC 5545 asks |
| IcsDocument.StampRoundTrip | internal/web/ical_export.go:78-80 | the printed UTC time reads back as the same civil fields |
| IcsRoundTrip.DocumentRoundTrip | internal/web/ical_export.go:30-76 | for every event list, cutting at CRLF, unfolding and parsing the document gives one well-nested VCALENDAR whose events are the input in order, every field recovered up to trimming and line-break spelling |
| IcsRoundTrip.DocumentHeader | internal/web/ical_export.go:31-37 | the document reads as a VCALENDAR with exactly its four properties and one component per event |
| EventUids.PrintedUidsDistinct | internal/web/ical_export.go:40-44 | the UIDs read from a printed calendar are distinct iff no two of its events clash: two without id by second and sanitised heading, two ids up to trimming and line-break spelling, or an id that spells a made-up UID |
| EventUids.GeneratedInjective | internal/web/ical_export.go:41-44 | two made-up UIDs are equal iff second and sanitised heading are |
| EventUids.DedupTidy | internal/spond/client.go:122-134 | after deduplication no two events whose ids are trimmed and free of carriage returns read alike |
| EventUids.SpacedIDsClash | internal/spond/client.go:122-134 | ids that differ in a trailing space survive deduplication and print as one UID |
| EventFetch.FetchEventsForGroups | internal/spond/client.go:89-138 | the loop over the groups, with the set of ids seen, returns what FetchOutcome, FetchExact and FetchedFrom describe in terms of the replies |
| EventFetch.FetchOutcome | internal/spond/client.go:89-114 | fails without a token; is the plain fetch if every group is blank; else succeeds iff every reply does, and fails with the error of the first group in order whose reply is one |
| EventFetch.FetchExact | internal/spond/client.go:102-137 | a successful fetch returns, in order, exactly the replied events that are the first with their id or have none, each given the requested group iff it names neither group nor subgroup and otherwise as replied |
| EventFetch.FetchedOnceEach | internal/spond/client.go:122-137 | no two returned events share an id, and every id replied for a requested group is returned |
| EventFetch.FetchedFrom | internal/spond/client.go:102-135 | every returned event with an id is the first with it in the reply for the first requested group that has it, with that group filled in iff it names none |
| EventFetch.AttributeInPlace | internal/spond/client.go:116-120 | in place, exactly the events with neither group field get the requested group |
| EventFetch.DedupIsFirstOccurrences | internal/spond/client.go:122-134 | the result is the subsequence at exactly the first occurrence of every id and every event without one |
| EventFetch.OncePerID | internal/spond/client.go:122-134 | every non-blank id among the replies appears exactly once |
| EventFetch.BlanksKept | internal/spond/client.go:123-126 | no event without an id is lost or reordered |
| EventFetch.FirstGroupWins | internal/spond/client.go:102-135 | an event comes, with its attribution, from the first requested group whose reply holds its id |
| EventFetch.FetchedIDsOrderIndependent | internal/spond/client.go:89-138 | whether a fetch fails, and the set of ids it returns, do not depend on the order, repetition or spelling of the groups |
| EventViews.StatusKeyMeaning | internal/web/events_view.go:285-321 | the status key follows the precedence of the response lists, and is one of the four keys |
| EventViews.IncludesAnyID | internal/web/events_view.go:323-344 | true iff some listed id equals a trimmed non-blank actor id |
| EventViews.ParentsLast | internal/web/events_view.go:152-174 | a subgroup resolves to the last group that lists it |
| EventViews.ParentsNone | internal/web/events_view.go:152-174 | a subgroup no group lists resolves to none |
| EventViews.BuildSubGroupParentByID | internal/web/events_view.go:152-174 | the nested loops build that map |
| EventViews.NamesLast | internal/web/events_view.go:143-150 | a group id is named by the last group with it, trimmed |
| EventViews.NamesNone | internal/web/events_view.go:143-150 | an id no group has is not named |
| EventViews.EventGroupExact | internal/web/events_view.go:121-141 | an event belongs to the group it names; else to the last group that lists its subgroup; else, or if that group has a blank id, to none |
| EventViews.GroupNameExact | internal/web/events_view.go:79-86 | the name shown is that of the last group with the id, the id if there is none or its name is blank, a phrase for no group |
| EventViews.StatusExact | internal/web/events_view.go:295-321 | the text, the key and the style of the status follow the first of the five response lists that names a trimmed non-blank actor |
| EventViews.ViewDescribes | internal/web/events_view.go:75-100 | the row of an event has its id, heading and times, the group it belongs to under that group's name, and the actors' status, each spelled out from event and groups |
| EventViews.BuildEventViewData | internal/web/events_view.go:71-119 | two sorted permutations of the views before `now` and of the rest, each with id, heading, times, group and status |
| EventViews.BuiltViewsDescribe | internal/web/events_view.go:71-119 | the rows describe the events one by one; the past ones start before `now`, the upcoming ones do not, and both are in order of start |
| EventViews.SplitMergeConserves | internal/web/ical_export.go:10-20 | merging the halves gives a sorted permutation of all events in which every past one precedes every upcoming one |
| EventViews.FilterEventViewData | internal/web/events_view.go:260-283 | keeps exactly the views whose group and status are selected, an empty selection selecting all |
| EventViews.StatusFiltersPartition | internal/web/events_view.go:260-293 | the four status filters cut every list with no loss and no overlap |
| AccessScope.NormalizeCreateAccessTokenRequest | internal/web/access_scope.go:33-92 | the loops return the normalised scope or the first error in order, with the group and the status its message quotes |
| AccessScope.NormalizeExact | internal/web/access_scope.go:33-92 | accepted iff the category is blank or spells ical, there is a group, each has an id of its own and only understood statuses, at least one, and some actor is not blank; the scope keeps of each group what it says; a refusal over the groups names the first at fault |
| AccessScope.StatusSpelled | internal/web/events_view.go:244-258 | a filter value gives a status iff it is, up to case and surrounding space, its word or its code; nothing else is understood |
| AccessScope.NormalizeCanonical | internal/web/access_scope.go:33-92 | accepted scopes have distinct trimmed group ids, non-empty statuses in fixed order and canonical actor ids, and normalising them again is the identity |
| AccessScope.RespellingInvariant | internal/web/access_scope.go:63-77 | reordering, repeating or respelling statuses changes neither the rules nor the error, except for the spelling of the status the error quotes |
| AccessScope.FilterEventsByICalScope | internal/web/access_scope.go:94-133 | a sorted permutation of the upcoming and past views the rules match, the last rule for a group standing for it |
| AccessScope.AllowedDistinct | internal/web/access_scope.go:94-115 | with one rule per group, as in every accepted scope, an event is allowed iff some rule for its group lists its status and, for past events, the past |
| TokenExport.ExportSoundComplete | internal/web/server.go:236-241 | for every scope, split, filter and merge give a sorted permutation of exactly the fetched events that the rule for their group allows |
| TokenExport.ExportListOfEvents | internal/web/events_view.go:71-119 | in terms of events and groups: exactly the events whose status for the actors is listed by the rule for the group they belong to, past ones if the rule includes them, each described as it is |
| TokenExport.ExportedHasGroup | internal/web/access_scope.go:100-105 | an event without a resolved group is never exported |
| TokenExport.WideningMonotone | internal/web/access_scope.go:94-133 | for fixed events, widening a rule never removes an event |
| TokenExport.NormalizedScopeRequests | internal/web/server.go:204-219 | for a normalised scope the handler requests exactly the groups of its rules, in order |
| TokenExport.ExportedEventReads | internal/web/events_view.go:88-100 | a calendar reader sees each event's id or made-up UID, times and heading, its group's name as the one category, and as description the group's name and the status the response lists give |
| TokenExport.HandleEventsExportForAccessToken | internal/web/server.go:184-246 | 401 unless the token is live; 200 iff it is live, of the right category, with a scope that names a group, an API token and API replies; then the calendar reads back, for every scope, as a sorted permutation of the export list; an expired token is deleted |
| TokenExport.PlanExact | internal/web/server.go:195-234 | each refusal with its exact guard, in order: 403 for the category, 500 for the scope, 403 for no group, 401 without an API token, 502 iff the groups or a requested group's events are not answered; an export is planned iff none holds |
| TokenExport.CreatedTokenExports | internal/web/server.go:581-603 | from an accepted request to the calendar: after any operations that spare the token, exports are granted exactly until its expiry, for the scope of the request and its groups: 401 iff there is no API token, 502 iff the API does not answer, else the export |
| AccessTokens.SweepingUnobservable | internal/web/access_token_store.go:159-181 | over every run with a forward clock, removing all sweeps and letting exports delete expired tokens or not changes no answer to any export |
| AccessTokens.SweepsInterchangeable | internal/web/access_token_store.go:159-181 | two runs that differ only in their sweeps answer every export alike |
| AccessTokens.ClockNeeded | internal/web/server.go:784-790 | without a forward clock it fails: a swept token would still have been accepted earlier |
| AccessTokens.CreatedUntilExpiry | internal/web/access_token_store.go:42-64 | over every run that neither deletes nor recreates it, a token answers exports with the record it was created with, exactly until its expiry |
| AccessTokens.UniqueIDsKept | internal/web/access_token_store.go:42-64 | ids stay positive, below the counter and unique over every run |
| AccessTokens.RevokedByToken | internal/web/access_token_store.go:143-157 | a token deleted by itself answers no export, at any time and after any operations, until it is created anew; other tokens keep their record |
| AccessTokens.RevokedByID | internal/web/access_token_store.go:122-141 | the same for the user's token with the id; a token with another id or of another user keeps its record |
| AccessTokens.SweepExact | internal/web/access_token_store.go:159-181 | a token survives a sweep iff it is another user's, never expires or expires later, and survives unchanged |
| AccessTokens.MemoryAccessTokenStore.CreateAccessToken | internal/web/access_token_store.go:42-64 | stores the trimmed token under a new id or reports which argument is missing |
| AccessTokens.MemoryAccessTokenStore.DeleteAccessTokenByID | internal/web/access_token_store.go:122-141 | whatever the iteration order, removes exactly the user's token with that id or reports that there is none |
| AccessTokens.MemoryAccessTokenStore.DeleteAccessTokenByToken | internal/web/access_token_store.go:143-157 | removes exactly that token or reports that there is none |
| AccessTokens.MemoryAccessTokenStore.DeleteExpiredAccessTokensByUserID | internal/web/access_token_store.go:159-181 | removes exactly the user's expired tokens; the count and the survivors add up; other users' tokens stay |
| UserTokens.Provenance | internal/web/user_store.go:41-113 | over every run: the two indexes are inverse, and each stored token and expiry are the access or the refresh pair of its profile's latest upsert |
| UserTokens.StoredExact | internal/web/user_store.go:41-113 | after every run each stored user is the latest upsert of the profile, with the refresh pair in place of the access pair iff a promotion followed and there is a refresh token |
| UserTokens.StoredUpsert | internal/web/user_store.go:41-66 | an upsert replaces the record of its profile, reachable under the profile, and no other |
| UserTokens.StoredPromote | internal/web/user_store.go:96-113 | a promotion replaces token and expiry of one user, if there is a refresh token, and leaves everything else |
| UserTokens.IDsStable | internal/web/user_store.go:41-66 | an id given to a profile stays with it |
| UserTokens.MemoryUserTokenStore.UpsertUserToken | internal/web/user_store.go:41-66 | updates the profile's user in place or adds one under a new id |
| UserTokens.MemoryUserTokenStore.PromoteRefreshTokenByUserID | internal/web/user_store.go:96-113 | the refresh token replaces the access token together with its expiry |
| UserTokens.ChooseTokenExact | internal/syncworker/events_worker.go:145-180 | the access token if valid beyond 30 s, else the refresh token if it is, else an error, except exactly at the boundary where the access token is returned |
| UserTokens.ChooseTokenSafe | internal/web/server.go:831-866 | away from the boundary a token is chosen iff one is valid beyond 30 s, and the chosen one is |
| UserTokens.ChooserBoundary | internal/syncworker/events_worker.go:145-180 | at the boundary an access token that expires at the skew, and one long expired beside such a refresh token, are chosen |
| EventCache.SpondCacheStore.UpsertUserEvents | internal/db/spond_cache_store.go:23-64 | a failure leaves exactly the effect of the events before it |
| EventCache.UpsertAllExact | internal/db/spond_cache_store.go:23-64 | one row per user and trimmed id stays an invariant; each id holds its last occurrence with the sync time; other ids and users are untouched |
| EventCache.UpsertIdempotent | internal/db/spond_cache_store.go:23-64 | applying the same sync again leaves the table identical, row ids included |
| EventCache.UpsertKeepsIDs | internal/db/spond_cache_store.go:23-64 | row ids stay distinct, and every row keeps its id and its key |
| EventCache.SpondCacheStore.LastSyncedAtByUserID | internal/db/spond_cache_store.go:66-87 | the latest stamp among the user's rows, none for no rows or the zero time, or an error |
| SyncWorker.SyncAgreementExact | internal/web/sync_store.go:25-44 | after one more sync the cache and the memory store agree on the user iff it brought an event with an id or is stamped with the time the memory store had |
| SyncWorker.EmptySyncDisagrees | internal/web/sync_store.go:25-44 | a first sync that brings no events is reported by the memory store and not by the cache |
| SyncWorker.SyncStatusAgrees | internal/web/sync_store.go:25-44 | over every run of such syncs with a forward clock the two stores report the same last sync for every user |
| SyncWorker.SyncStatusExact | internal/web/sync_store.go:25-44 | over every run with a forward clock the cache reports the latest sync that brought an event with an id, and the two stores agree on a user iff leaving out the empty syncs does not change what the memory store reports |
| SyncWorker.MemoryEventSyncStore.UpsertUserEvents | internal/web/sync_store.go:25-31 | the user is stamped with the time of the sync, whatever it brought |
| SyncWorker.MemoryEventSyncStore.LastSyncedAtByUserID | internal/web/sync_store.go:33-44 | the stamp of the user, none for no stamp or the zero time |
| SyncWorker.RunOnce | internal/syncworker/events_worker.go:98-115 | the pass fails if the users cannot be loaded; otherwise it syncs them in order until it is cancelled, whatever fails on the way |
| SyncWorker.SyncUser | internal/syncworker/events_worker.go:117-143 | one user's turn writes what was fetched with the chosen token, if its client could be made, up to the first failing write |
| SyncWorker.FetchedExact | internal/syncworker/events_worker.go:117-136 | a turn fetches with the access token if it is valid beyond 30 s, else with the refresh token if it is, and has the reply to that very token; away from the boundary nothing without a valid one |
| SyncWorker.TurnStores | internal/syncworker/events_worker.go:117-143 | of the events before the first failing write the last with each id is stored with the time of the write; everything else stays |
| SyncWorker.OwnOutcomeOnly | internal/syncworker/events_worker.go:98-143 | after a pass over distinct users each user's rows are what that user's own turn alone makes of them |
| SyncWorker.NoTurnNoChange | internal/syncworker/events_worker.go:98-115 | users without a turn keep their rows |
| FilterLists.NormalizeFilterList | internal/web/server.go:709-727 | the loop returns the trimmed non-blank values, each at its first occurrence |
| FilterLists.FilterListCanonical | internal/spond/client.go:160-179 | the result is exactly the set of trimmed non-blank inputs without duplicates, and normalising again is the identity |
| FilterLists.FilterListFirst | internal/web/server.go:709-727 | the values are in the order of their first occurrences |
| FilterLists.ParseCompactFilterValues | internal/web/server.go:729-747 | the loops parse the concatenated query values |
| FilterLists.CompactFilterExact | internal/web/server.go:729-747 | a value is selected iff some comma-separated piece of some value of one of the parameters is, trimmed, that non-blank value |
| FilterLists.CompactFilterOrder | internal/web/server.go:729-747 | pieces are taken in the order of the parameters, of their values and within a value, and normalised as one list |
| FilterLists.CompactFilterRoundTrip | internal/web/server.go:729-747 | parsed values are canonical and comma-free, their comma-joined print parses back to them, and group-id normalisation leaves them alone |
| FilterLists.JoinedEqualsRepeated | internal/web/server.go:729-747 | joining parameter values with commas or repeating the parameter is the same query |

## Left out

- Concurrent requests and overlapping syncs: no lock spans check, serve and persist, so runs are sequential.
- PROPFIND, OPTIONS, PROPPATCH, COPY, MOVE, LOCK and UNLOCK: library behaviour; the last five change the tree without being mirrored.
- The WebDAV library's own tags, and its answers to range reads and to conditions other than If-Match: the library is not part of this model.
- The text of bodies other than those of reads: errors and successful updates carry an empty body in the model.
- Which success status the library gives an update: the model's 201 and 204 for PUT are those of RFC 4918, the library may answer 201 for both. Results that do not name a status do not depend on it.
- Repeated If-Match header lines: only the first is read, as one list.
- Rows written to the resource store by anything but the handler: `Handler` asks that stored paths be clean, which every row it writes is.
- Copying of byte buffers by the memory store: contents are values here, so aliasing between caller and store does not arise.
- White space and letter case beyond ASCII, and UTF-8 encoding.
- Years beyond four digits, time zones and calendar arithmetic: a time carries its count and its printed fields side by side.
- Line folding at 75 octets: the printer does not do it; the reader unfolds.
- `sort.Slice` itself: any sorted permutation is allowed, and an insertion sort stands in for it.
- Wrap-around of 64-bit ids.
- `ListAccessTokensByUserID`, the database versions of the token stores, filter view data for templates, profile and session handling: easy filters, sorts and plumbing.
- `responseActorIDs`: actor ids reach the model as given in the scope.
- JSON, hashing, random tokens, HTTP and logging: parameters or absent.
- FileTree.MemFS.MakeAll: takes the directory as its list of cleaned segments rather than as a string to split again, and says nothing of the tree after a failure, which the handler throws away.
- EventViews.BuildEventViewData: leaves out the two display texts of the start time, which the export does not use.
- UserTokens.MemoryUserTokenStore.UpsertUserToken: takes the profile, tokens and expiries as one record.
