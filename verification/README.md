# A verified model of muxa's stateful cores

muxa is a Rust framework of plugins around axum. This project models the parts of it that
keep state over unbounded runs, or that do string work and arithmetic whose correctness is
not plain from reading one body, and proves what their code and documentation promise.

`dafny verify dfyconfig.toml` checks everything (Dafny 4.11).

| file | what it models |
|---|---|
| `Utf8.dfy`, `Search.dfy`, `BindsCut.dfy` | how `diesel-sentry` renders a query's SQL from arbitrary write chunks and drops the bind values |
| `QueryTracker.dfy` | its bounded queue of in-flight query spans |
| `Migrations.dfy` | any number of replicas running their migrations against one database, as interleaved steps with failures at any point |
| `LockKey.dfy` | the FNV-1a hash that names the migration lock |
| `FormUrl.dfy`, `Redirect.dfy` | form encoding, `with_query`, `safe_next`, and the targets refusals are sent to |
| `PendingLogins.dfy` | the sign-in attempts a session remembers |
| `SignIn.dfy` | the `start` and `callback` routes over whole histories of one session |
| `SessionStore.dfy` | the `auth_sessions` table with a sweeper at work |
| `ConfigLayers.dfy` | the layering of environment, file and conventional variables |
| `Telemetry.dfy` | the slot of telemetry layers and the crates hidden from them |
| `Shutdown.dfy` | waiting for background tasks under one deadline |
| `Segments.dfy`, `Spa.dfy` | which request gets the single-page app's index page and what may be cached |

A Rust `String` or `&str` is a Dafny `string` (a sequence of Unicode scalar values); where
the code counts bytes, `Utf8.Encode` gives them. Code that changes things in place is a
class whose methods are proved against functions on values, and the statements about whole
runs are lemmas about these functions. What the database, the clock, the provider, the
resolver, the hash of `sql_key` or the parser of a configuration value answers is a
parameter, so every statement holds for all of their answers.

## What is false, and what is true instead

- A finish does not always close a span of its own query: with exactly one query in flight
  the code closes that one without looking (`FastPathClosesAnother`). Agreement with the
  ideal tracker over a whole run holds exactly when no finish ever meets a lone span of
  another query (`TracksOwnQueriesIff`).
- The cut before the binds is independent of what follows because the marker has no
  border; for a marker with a border it would not be (`CutIgnoresSuffixIffUnbordered`).
- "Then find nothing pending and return `Ok(0)`" needs more than the lock: the migration
  table's key keeps every version from being applied twice in any case, but a replica that
  should find nothing to do fails on that key when it does not share the lock's key, or when
  its snapshot is older than its wait (`SecondIsRejected`, `NeverRejectedIff`,
  `PinIsWhatMatters`).
- A refusal does not always keep `next`: one that puts its code in a parameter called `next`,
  or a sign-in path that has one, is read first (`RefusalTakesNext`, `NextReadIff`).
- HTML is not always `no-cache`: under the assets prefix of an embedded build it is immutable
  (`RootPrefixKeepsIndex`, `HtmlRevalidatedIff`).
- The sign-in flow stays on the site exactly when its two configured paths do
  (`StaysOnSiteIff`): `default_next` and `sign_in_path` are not filtered.
- The conventional variables of a section whose name contains a dot are never found
  (`FallbacksReachIffUndotted`), and where file and environment disagree on whether
  something is a table, the environment can hide the file's values (`ClashHidesFile`); when
  it does is decided by `FileIsReadIff`, and for all layers by `FirstLayerWinsIff`.
- Excluding a crate matches by whole `::` segments exactly for names that do not end in a
  lone colon (`SegmentMatchingIff`).
- A sweep can change which id a create stores under, and so what is loaded under it
  afterwards (`SweepMovesCreate`, `CreateNoticesSweepIff`). Over runs of saves, loads and
  deletes it changes no load, and over runs with creates exactly when no create notices
  (`SweepsChangeNoLoadIff`).

The code's own documentation calls the lock the first statement of the migration
transaction; the code first pins the isolation level, and the model follows the code.

## Model

| member | source | states |
|---|---|---|
| Utf8.Truncate | crates/diesel-sentry/src/lib.rs:261-265 | cutting on a character boundary, the only place where the code may cut, leaves a text whose bytes are the bytes before the cut |
| Utf8.EncodeInjective | crates/diesel-sentry/src/lib.rs:256-259 | different texts never have the same bytes |
| Search.CutIgnoresSuffixIffUnbordered | crates/diesel-sentry/src/lib.rs:36-38 | text before a marker is found independently of what follows the marker, for all texts, if and only if no proper suffix of the marker is a prefix of it |
| BindsCut.MarkerUnbordered | crates/diesel-sentry/src/lib.rs:36-38 | diesel's binds marker is such a marker |
| BindsCut.SearchesAgree | crates/diesel-sentry/src/lib.rs:254-259 | searching bytes and searching characters find the same first marker |
| BindsCut.ShortSearch | crates/diesel-sentry/src/lib.rs:254-259 | looking back one marker length is enough to find the first marker in the whole text |
| BindsCut.CutIsCharBoundary | crates/diesel-sentry/src/lib.rs:260-266 | the position found is a character boundary, so truncating there does not panic and gives the text before the marker |
| BindsCut.FindMarker | crates/diesel-sentry/src/lib.rs:254-266 | the search one marker length back finds where to cut, if the chunk has brought the marker |
| BindsCut.UntilBinds.WriteStr | crates/diesel-sentry/src/lib.rs:249-270 | after any number of writes, refused ones included, the buffer is the text before the first marker of everything offered, and the cut flag says whether there was one |
| BindsCut.WriteSql | crates/diesel-sentry/src/lib.rs:227-238 | the rendered SQL depends only on the concatenation of the chunks, not on how it was chunked nor on whether writing went on after a refusal |
| BindsCut.SqlTextIsWhatPrecedes | crates/diesel-sentry/src/lib.rs:232-238 | the rendered SQL is all that precedes the first marker, up to the whitespace at its end |
| BindsCut.SqlTextHasNoBinds | crates/diesel-sentry/src/lib.rs:227-231 | what is rendered holds no marker, and rendering it again changes nothing |
| BindsCut.StartAndFinishRenderAlike | crates/diesel-sentry/src/lib.rs:110-127 | for every SQL and every suffix, the SQL followed by marker and suffix renders like the bare SQL |
| QueryTracker.StartAndFinishShareKey | crates/diesel-sentry/src/lib.rs:140-149 | a start and its finish have the same key whatever the hash, the binds and the chunking |
| QueryTracker.SentryInstrumentation.StartQuery | crates/diesel-sentry/src/lib.rs:102-129 | the queue after a start is the tracker's start step on the rendered SQL; nothing happens while spans are disabled |
| QueryTracker.SentryInstrumentation.FinishQuery | crates/diesel-sentry/src/lib.rs:131-156 | the queue after a finish is the tracker's finish step, the returned entry is the span that was closed, and without a match among several nothing changes |
| QueryTracker.StartTakesIn | crates/diesel-sentry/src/lib.rs:102-129 | a start puts its span at the end of the queue, in the place of the oldest of 32, and does nothing while spans are disabled |
| QueryTracker.FinishTakesOut | crates/diesel-sentry/src/lib.rs:131-150 | among two or more open spans a finish takes out the first with its key and leaves the others in order, or leaves everything alone when there is none; a lone span goes whatever its key |
| QueryTracker.RunConserves | crates/diesel-sentry/src/lib.rs:124-150 | in every run of events the queue holds at most 32 spans, an in-order selection of those started, all younger than any evicted one, and started = open + finished + evicted as multisets |
| QueryTracker.StepConserves | crates/diesel-sentry/src/lib.rs:124-127 | only a start into a full queue evicts, and it evicts the oldest span |
| QueryTracker.ClosedAtMostOnce | crates/diesel-sentry/src/lib.rs:136-150 | no span is closed twice, in any run |
| QueryTracker.FinishIsIdealIff | crates/diesel-sentry/src/lib.rs:136-150 | with keys that tell the texts apart, a finish closes the oldest span of its own SQL if and only if it does not meet a lone span of another SQL |
| QueryTracker.TracksOwnQueriesIff | crates/diesel-sentry/src/lib.rs:136-150 | the same for every prefix of a run, evictions included |
| QueryTracker.FastPathClosesAnother | crates/diesel-sentry/src/lib.rs:102-138 | a run in which the fast path closes the span of another query: the one that finishes started while spans were disabled |
| QueryTracker.KeySearchClosesOwn | crates/diesel-sentry/src/lib.rs:139-150 | with both spans in the queue and keys that differ, the same finish closes its own |
| QueryTracker.RunRefinesFifo | crates/diesel-sentry/src/lib.rs:71-75 | in every well-formed run the tracker is an unbounded first-in-first-out queue per SQL text: same open spans in order, same closures, no eviction |
| Migrations.MutualExclusion | crates/muxa-diesel/src/migrations.rs:53-58 | in every interleaving at most one replica per key is between acquiring the lock and the end of its transaction |
| Migrations.MayDieAnytime | crates/muxa-diesel/src/migrations.rs:56-58 | in every reachable state any replica that is not done can die, mid-migration too: table and log stay, its lock is free, and whoever waits for that key can take it next |
| Migrations.CommitIsWhole | crates/muxa-diesel/src/migrations.rs:8-11 | a commit adds all of the replica's missing migrations, in ascending order, and nothing else changes the table: all or none |
| Migrations.OkMeansMigrated | crates/muxa-diesel/src/migrations.rs:94-98 | in every reachable state, a replica that has answered `Ok`, or just committed, has its whole set in the table |
| Migrations.AppliedOnceAndCounted | crates/muxa-diesel/src/migrations.rs:94-98 | over every interleaving with failures anywhere, whatever the keys, sets and isolation, no version is applied twice, and the counts returned plus those of batches whose answer was lost or is still due sum to the versions added |
| Migrations.UpToDateReturnsZero | crates/muxa-diesel/src/migrations.rs:55-58 | a replica whose whole set is in the table before it commits can answer no count but 0, whatever happens next |
| Migrations.NeverStuck | crates/muxa-diesel/src/migrations.rs:55-58 | until every replica has finished, one of them can take a step other than failing: neither the lock nor a pending insert makes a deadlock |
| Migrations.AllCanFinish | crates/muxa-diesel/src/migrations.rs:55-58 | from every reachable state, deaths behind it, all other replicas can still get to `Ok` or be turned away by the table's key |
| Migrations.SecondIsRejected | crates/muxa-diesel/src/migrations.rs:116-120 | for any two replicas that share a migration, but not the key or the sight of what is committed during the wait, a run in which the second one fails on the table's key although its whole set is applied |
| Migrations.NeverRejectedIff | crates/muxa-diesel/src/migrations.rs:59-63 | no replica ever fails on the table's key, in any run from any table, if and only if replicas that share a migration share the lock's key and see what was committed while they waited |
| Migrations.AllCanReturn | crates/muxa-diesel/src/migrations.rs:55-58 | and replicas that meet that condition can all still get to `Ok` |
| Migrations.PinIsWhatMatters | crates/muxa-diesel/src/migrations.rs:116-120 | for all replicas that share the key of what they share, this holds if and only if the level is pinned or the server defaults to READ COMMITTED |
| LockKey.Fnv1a64 | crates/muxa-diesel/src/migrations.rs:26-36 | the loop computes the fold of the steps over the bytes |
| LockKey.XorBitwise | crates/muxa-diesel/src/migrations.rs:31 | each bit of the exclusive or is set exactly when the two bits differ |
| LockKey.FoldConcat | crates/muxa-diesel/src/migrations.rs:30-34 | hashing one text after another is hashing them in turn, from left to right |
| LockKey.StepInvertible | crates/muxa-diesel/src/migrations.rs:31-32 | each step is a bijection on 64-bit states, undone with the prime's inverse |
| LockKey.FoldInvertible | crates/muxa-diesel/src/migrations.rs:26-36 | hashing any text is a bijection on the states, in both directions |
| LockKey.OneByteApart | crates/muxa-diesel/src/migrations.rs:26-36 | equally long texts that differ in exactly one byte have different hashes |
| LockKey.AsSigned | crates/muxa-diesel/src/migrations.rs:72-76 | the key is in the signed 64-bit range and differs from the hash by a multiple of 2^64 |
| LockKey.KeysOneByteApart | crates/muxa-diesel/src/migrations.rs:70-76 | and different signed lock keys |
| LockKey.KnownHash | crates/muxa-diesel/src/migrations.rs:28-33 | the published hash of `a`, which fixes the order of exclusive or and multiplication |
| FormUrl.DecodeSerialized | crates/muxa-auth/src/redirect.rs:35-38 | every byte text survives serializing and decoding |
| FormUrl.KnownSerializations | crates/muxa-auth/src/redirect.rs:35-38 | bytes that show which are kept, which are percent-encoded, and that a space becomes `+` |
| FormUrl.ParseSerialized | crates/muxa-auth/src/redirect.rs:35-40 | parsing a serialized list of pairs gives the list |
| FormUrl.ParseConcat | crates/muxa-auth/src/redirect.rs:39-40 | parsing distributes over `&` for all queries, empty pieces included |
| Redirect.WithQuery | crates/muxa-auth/src/redirect.rs:25-46 | the loop builds the path with the pairs inserted before the fragment |
| Redirect.AppendsParams | crates/muxa-auth/src/redirect.rs:25-46 | the decoded parameters are the old ones followed by the new ones; location and fragment are unchanged |
| Redirect.AppendTwice | crates/muxa-auth/src/redirect.rs:25-46 | appending one list and then another is appending both at once, for all paths |
| Redirect.AcceptedIff | crates/muxa-auth/src/redirect.rs:9-23 | exactly the targets with one leading slash, no backslash, no `://`, no control character and at most 2048 bytes are accepted; all else becomes the fallback |
| Redirect.AcceptedStaysHere | crates/muxa-auth/src/redirect.rs:3-7 | a browser, to which a backslash is a slash and a tab or line end nothing, reads an accepted target as a path: no scheme, no `//host` |
| Redirect.SafeNextStable | crates/muxa-auth/src/redirect.rs:3-23 | filtering a filtered target changes nothing; under every fallback if and only if the target is itself acceptable |
| Redirect.OnSiteClosed | crates/muxa-auth/src/redirect.rs:3-46 | a path with parameters appended has the on-site shape if and only if the path has it |
| Redirect.RefuseParams | crates/muxa-auth/src/routes.rs:65-80 | what a refusal's target carries after decoding, for links and for sign-ins |
| Redirect.NextReadIff | crates/muxa-auth/src/routes.rs:65-80 | the first parameter called `next` of a refusal's target is the destination if and only if the sign-in path has no parameter of that name and the error is not put there, or the one that comes first says the same |
| Redirect.RefusalsKeepNext | crates/muxa-auth/src/routes.rs:68-92 | a sign-in page that reads `next` by name gets the first destination back after every one of any number of refusals if and only if each of them meets that condition, and then the sign-in still goes there |
| Redirect.RefusalTakesNext | crates/muxa-auth/src/routes.rs:68-79 | a refusal put in the parameter `next` loses the destination |
| PendingLogins.Session.Remember | crates/muxa-auth/src/routes.rs:230-249 | what is left is the fresh attempts, minus just enough of the oldest, plus the new one; the eviction loop ends and never finds its map empty; a store failure changes nothing |
| PendingLogins.RememberKeepsFresh | crates/muxa-auth/src/routes.rs:234-247 | after a remember the newcomer is in, nothing else is 600 seconds old or more, and a fresh attempt is only missing when three others no older than it are there |
| PendingLogins.Session.Take | crates/muxa-auth/src/routes.rs:251-271 | the attempt is removed and returned only while fresh; an emptied map is not kept |
| PendingLogins.AlwaysWellKept | crates/muxa-auth/src/routes.rs:24-26 | in every run at most four attempts, each under its own token, and never an empty map |
| PendingLogins.TakenWasRemembered | crates/muxa-auth/src/routes.rs:251-271 | what is taken was remembered under that token, was created less than 600 seconds ago, and was neither taken nor replaced in between |
| PendingLogins.TakenOnce | crates/muxa-auth/src/routes.rs:251-252 | no two takes return what one remember stored |
| PendingLogins.FreshIsFoundUnlessFourRivals | crates/muxa-auth/src/routes.rs:234-248 | with a clock that does not go back and distinct tokens, an untaken attempt is found for 600 seconds unless four others no older than it have been remembered, for every way of breaking ties |
| PendingLogins.YoungerOutlive | crates/muxa-auth/src/routes.rs:237-246 | while an attempt is kept, so is every fresh, untaken, strictly younger one |
| PendingLogins.FourthYoungerEvicts | crates/muxa-auth/src/routes.rs:24-26 | so an attempt that is still kept has at most three such younger ones |
| SignIn.AuthSession.Start | crates/muxa-auth/src/routes.rs:82-131 | the session and the redirect after a start, for every answer of provider and store |
| SignIn.AuthSession.Callback | crates/muxa-auth/src/routes.rs:140-213 | the session, the redirect, what the resolver saw and who was signed in after a callback |
| SignIn.StartSucceedsIff | crates/muxa-auth/src/routes.rs:92-131 | over every history, a start goes to the provider if and only if the provider is known and answers, a link has a current user and the store answers; the session then holds an attempt with just what request and provider gave, and is untouched otherwise |
| SignIn.StartRefusal | crates/muxa-auth/src/routes.rs:96-128 | the code and the way back of every start that is refused |
| SignIn.LoginIff | crates/muxa-auth/src/routes.rs:149-213 | over every history, a callback signs in if and only if its token finds a fresh attempt of its provider, there is no error but a code, the provider is known and identifies the person, a link has a current user, and resolver and login succeed; otherwise whoever was signed in stays |
| SignIn.NothingFound | crates/muxa-auth/src/routes.rs:149-161 | without such an attempt the code is `expired`, or `failed` when the store does not answer, and no destination is known |
| SignIn.CallbackRefusal | crates/muxa-auth/src/routes.rs:162-211 | with one, the code and the way back of every refusal, `cancelled` exactly when the provider says access was denied |
| SignIn.TargetCarries | crates/muxa-auth/src/routes.rs:65-80 | a redirect within the app keeps location, fragment and parameters of the path it is made from, adds its own parameters behind them, and is on-site if and only if that path is |
| SignIn.LoginHasOneStart | crates/muxa-auth/src/routes.rs:150-161 | over every history, a login goes back to exactly one earlier start, whose request named the same provider, whose token is the one called back with, and which was made less than 600 seconds before |
| SignIn.LoginsShareNoStart | crates/muxa-auth/src/routes.rs:251-252 | no two logins share a start |
| SignIn.LoginGoesToNext | crates/muxa-auth/src/routes.rs:207-213 | a login redirects to its start's `next`, if that is on this site, with the resolver's pairs appended |
| SignIn.LinkWasAskedFor | crates/muxa-auth/src/identity.rs:40-49 | the resolver is told `link` only with a user signed in, and only when a start on this session, made by a signed-in user, asked for it |
| SignIn.RedirectsStayOnSite | crates/muxa-auth/src/redirect.rs:3-23 | over every history, each redirect except the one to the provider stays on the site, as a browser reads it too, when the sign-in page and the default are on it |
| SignIn.StaysOnSiteIff | crates/muxa-auth/src/redirect.rs:3-23 | and exactly then: with either of the two elsewhere there is a history that leaves the site |
| SessionStore.DieselSessionStore.Create | crates/muxa-auth/src/store.rs:78-100 | the record is stored under the first free id of those tried, no row that was there changes |
| SessionStore.DieselSessionStore.Load | crates/muxa-auth/src/store.rs:125-146 | a load finds the row only while it expires later than now |
| SessionStore.DieselSessionStore.DeleteExpired | crates/muxa-auth/src/store.rs:160-172 | a sweep removes the rows that expired before now, and only these |
| SessionStore.CreateEnds | crates/muxa-auth/src/store.rs:83-99 | with distinct draws a create ends after at most one attempt more than there are rows |
| SessionStore.CreateNoticesSweepIff | crates/muxa-auth/src/store.rs:84-98 | a sweep before a create leaves its id unchanged if and only if each tried id with an expired row comes after one that is free anyway |
| SessionStore.SweepMovesCreate | crates/muxa-auth/src/store.rs:84-98 | a table, two ids and a sweep for which the id, and a load after it, do change |
| SessionStore.CreateLoadsIff | crates/muxa-auth/src/store.rs:125-146 | for a session not born expired, all loads after the create are the same under the same condition and no other |
| SessionStore.LoadsSessions | crates/muxa-auth/src/store.rs:125-146 | in every run, sweeps and redrawn ids included, a load answers with what was last written under the id and not deleted, until that expires |
| SessionStore.WithoutCreatesUnnoticed | crates/muxa-auth/src/store.rs:160-172 | a run of saves, loads and deletes meets the condition of the next two rows |
| SessionStore.SweepsChangeNoLoad | crates/muxa-auth/src/store.rs:160-172 | a run with sweeps anywhere gives every load of the run without them, as long as no create tries a freed id before one that is free anyway |
| SessionStore.SweepsChangeNoLoadIff | crates/muxa-auth/src/store.rs:160-172 | over whole runs in time order, creates drawing their ids included: the sweeper changes no load if and only if no create does that |
| ConfigLayers.MergeIsJoin | crates/muxa-core/src/config.rs:62-72 | overriding is adding with the trees exchanged |
| ConfigLayers.JoinLeaf | crates/muxa-core/src/config.rs:179-180 | for any two trees, clashing or not, a leaf is read from the first one that has a say about its path |
| ConfigLayers.FirstLayerWinsIff | crates/muxa-core/src/config.rs:42-72 | for any layers, every leaf at every depth comes from the first layer that has it if and only if nowhere a value covers a table with leaves or a table covers a value |
| ConfigLayers.FirstLayerWins | crates/muxa-core/src/config.rs:42-72 | layers that agree on what is a table meet that condition |
| ConfigLayers.JoinNotAssociative | crates/muxa-core/src/config.rs:179-180 | joining clashing trees depends on the order of joining |
| ConfigLayers.FallbackFills | crates/muxa-core/src/config.rs:162-182 | for arbitrary trees, a key the configuration has no say about gets its first non-empty fallback, and no other |
| ConfigLayers.ReadsSection | crates/muxa-core/src/config.rs:165-193 | what a plugin reads is what lies below the dotted name of its section, for every name without an empty part |
| ConfigLayers.NoSectionReadsNothing | crates/muxa-core/src/config.rs:170-172 | a plugin without a section reads its defaults, whatever is configured |
| ConfigLayers.ThreeTiers | crates/muxa-core/src/config.rs:74-92 | under that condition every leaf a plugin reads, at any depth of its section, is the environment's, else the file's, else that of the first fallback that has it |
| ConfigLayers.ThreeTiersOfKey | crates/muxa-core/src/config.rs:74-92 | for a leaf right under the section it is enough that environment and file do not clash, whatever the fallbacks |
| ConfigLayers.FileIsReadIff | crates/muxa-core/src/config.rs:62-72 | the file is read wherever the environment has no leaf if and only if the environment hides nothing of the file |
| ConfigLayers.ClashHidesFile | crates/muxa-core/src/config.rs:62-72 | a clash in which the file's value is not read although the environment has none |
| ConfigLayers.FallbacksOnlyAdd | crates/muxa-core/src/config.rs:179-182 | for arbitrary trees, fallbacks change no leaf of the configuration at any depth, nor another section |
| ConfigLayers.FallbacksReachIffUndotted | crates/muxa-core/src/config.rs:122-128 | fallbacks are without effect, for all sources, if and only if the section's name is dotted |
| Telemetry.Slot.AddLayer | crates/muxa-telemetry/src/lib.rs:169-204 | a layer replaces the one of its type or is added, and a failed update changes neither vector |
| Telemetry.Slot.ExcludeTargets | crates/muxa-telemetry/src/lib.rs:206-232 | the named crates join the excluded ones in order, unless the lock cannot be taken |
| Telemetry.Slot.IsExcluded | crates/muxa-telemetry/src/lib.rs:84-98 | a target is hidden if and only if the list can be read and the target is in one of its crates |
| Telemetry.ExcludedIffNamed | crates/muxa-telemetry/src/lib.rs:206-232 | after any run of exclusions a crate is listed if and only if one that got the lock named it, and never twice |
| Telemetry.OneLayerPerType | crates/muxa-telemetry/src/lib.rs:24-31 | after any run, failures included, the vectors are in step, no type is twice, types are in the order of their first success, and each slot holds the last layer attached |
| Telemetry.SegmentMatchingIff | crates/muxa-telemetry/src/lib.rs:91-98 | a crate matches exactly the paths whose segments start with its own if and only if its name does not end in a lone colon |
| Telemetry.HiddenBySegments | crates/muxa-telemetry/src/lib.rs:84-89 | after any run of exclusions a target is hidden exactly when a crate ever named, in one that got the lock, is the start of its path |
| Shutdown.JoinTasks | crates/muxa-core/src/app.rs:149-177 | for every scheduling delay, tasks are judged by whether they had finished when last polled, which is no earlier than the deadline for those given up; without delays the end is when the last task is due |
| Shutdown.JudgedMeans | crates/muxa-core/src/app.rs:160-168 | for every scheduling delay, failed are exactly the tasks that had panicked when last polled and abandoned those that had not returned, each once and in list order |
| Shutdown.DeadlineRespected | crates/muxa-core/src/app.rs:154-157 | however late the runtime is, a task that finished by the deadline is not abandoned and its panic is reported |
| Shutdown.InTurnIsTogether | crates/muxa-core/src/app.rs:154-168 | in ideal time awaiting in turn gives the same lists as judging all tasks at the deadline |
| Shutdown.TogetherMeans | crates/muxa-core/src/app.rs:149-168 | in ideal time: those that panicked by the deadline, and those that had not returned by then |
| Shutdown.AllDueMeaning | crates/muxa-core/src/app.rs:149-151 | the wait ends at the earlier of the deadline and the last finish |
| Shutdown.OrderDoesNotMatter | crates/muxa-core/src/app.rs:160-168 | which tasks are reported does not depend on the order of the list |
| Spa.UnderIffSegments | crates/muxa-web/src/spa.rs:237-242 | being under a prefix is having its segments first, for all paths and prefixes |
| Spa.IndexOnlyForClientRoutes | crates/muxa-web/src/spa.rs:193-216 | a path that is no file gets the index page if and only if it is read and has no excluded or assets prefix, always uncached, and a plain 404 otherwise |
| Spa.ImmutableIsABuildFile | crates/muxa-web/src/spa.rs:218-235 | a response is immutable if and only if it is a file of an embedded build at that path, under the assets prefix, and not listed as uncached |
| Spa.FileIsServed | crates/muxa-web/src/spa.rs:171-191 | a path of the build is answered with that file, and for how long it may be kept, listed, page, embedded or read from disk |
| Spa.HtmlRevalidatedIff | crates/muxa-web/src/spa.rs:107-110 | a served page is `no-cache` if and only if it is listed, or the build is not embedded, or it is outside the assets prefix |
| Spa.RootPrefixKeepsIndex | crates/muxa-web/src/spa.rs:107-110 | with `/` as assets prefix the index page itself is immutable |

## Left out

- The capacity of the SQL buffer and its shrinking, span fields, transaction depth and `db.system`: no claim beyond one body.
- The hash behind `sql_key`: any function; only the statements that need it assume that it tells the texts in play apart.
- Migrations that opt out of transactions, a migration whose own SQL fails (one of the failures that can come at any point), and a server that dies: a failure is always followed by a rollback, or comes after the commit.
- UTF-8 decoding of parsed parameters: names and values stay bytes, and where they are read as text the decoder is any function that undoes encoding.
- The sign-in page: not part of this repository; taken to read the first parameter called `next`, decoded.
- Provider requests, token exchange, cookies, session-id rotation and two requests racing on one session record: answers are parameters of each request, and one request's work on the session is one step.
- Database errors in the session store: a failing statement leaves the table as it was.
- figment beyond `merge` and `join` of one profile, how it makes a tree of prefixed variable names or of a file, and the deserialization of a section into a type: figment is not part of this model.
- The interest cache of callsites, `RUST_LOG` levels and installing the subscriber.
- The body of a 304, compression, and routes of the API that win over the fallback: memory-serve and axum are not part of this model.
- Rate limiting, password verification, router composition, banners, run modes and pool sizes: one-branch facts or library calls.
