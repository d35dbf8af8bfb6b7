# Verified models of the home platform's trickiest code

Dafny models of twelve pieces of this repository, with proofs of what they promise. Each module
follows one program, or a few that work together, branch by branch; code that changes things step by
step is a method or a class proved against a specification, and the theorems are about that
specification.

`dafny verify dfyconfig.toml` checks everything.

| modules | what they model |
|---|---|
| `VoiceQueue`, `VoiceQueueSafety`, `VoiceQueueBounds`, `VoiceQueueRuns`, `VoiceQueueBuild`, `VoiceQueueLimits`, `VoiceQueueOrder`, `VoiceQueueClosing`, `VoiceWorker` | The voice worker: a dispatcher and a runner that share a directory of queue files and one of status files. `VoiceQueue` is the state machine, with every file operation an event and a crash possible between any two; the next ones prove what holds in every run, build runs, and prove exactly where the promises end; `VoiceWorker` is the two programs as methods whose history is a run of that machine |
| `JsonValues`, `PreviewCompose`, `PreviewComposeProofs`, `PreviewComposeMeaning`, `PreviewComposeScript` | The rewrite of an app's Compose fragment into a pull request's preview: what it computes, what that promises, what becomes of each setting, and the script itself |
| `Base64Url`, `UrlEncoding`, `Cookies`, `Login` | The C++ starter template: its token decoder, its percent-encoder, how it reads a cookie, and its session store, login routes and gate |
| `ConfigSubstitution` | The two placeholder replacements of the RouterOS script, one token ending in the other |
| `DocChunks`, `DocPlaces`, `Bm25` | The document index: cutting documents into chunks, where a chunk's text and heading come from, and ranking them |
| `IncludeWorklist`, `NewestTag` | The update checker: following Compose includes, and choosing the newest tag |
| `PortScan` | The security-group check with its truncated port scan |
| `DagArchive` | The check and unpacking of an app's DAG archive |
| `Text`, `Sets` | Text operations and a counting fact the others share |

## What the proofs turned up

- Tasks abandoned by a crash keep a status file that says running, and the admission check counts
  them. As many such tasks as `max_active` among the 20 newest that have a file refuse every later
  request, for good, and fewer never do: `VoiceQueueClosing.QueueIsClosedExactly`. It takes a crash for
  each, and can happen exactly with a bound of at most 20: `VoiceQueueClosing.ClosingNeedsCrashes`,
  `VoiceQueueClosing.CanCloseExactly`. Tasks lost between leaving the queue and their first status
  file have no file, so they do not push stuck ones out.
- In that gap a task is in neither directory, so one task more than `max_active` can be live, and
  never two: `VoiceQueueLimits.LiveBoundIsReached`, `VoiceQueueRuns.AdmissionIsBounded`, and exactly
  when in `VoiceQueueRuns.LiveExceedsExactly`.
- The bound survives ids that are somewhat out of order, as two in one second can be: exactly while
  the number of newer ids accepted before one, and `max_active`, are together at most 20. Beyond
  that, as after the clock went back, the queue grows without bound: `VoiceQueueLimits.BoundSurvivesExactly`,
  `VoiceQueueLimits.DisorderUnboundsQueue`.
- With a bound of two or more, tasks start in the order of acceptance exactly for ids that increase.
  With a bound of one, a newer task keeps an older one out while it is counted, so order is lost
  exactly behind 20 newer ids: `VoiceQueueOrder.FirstInFirstOutExactly`.
- The comment in the preview script that a rerun changes nothing is right, and proved for every
  fragment; a strict rerun can only object to the image.
- Replacing the two placeholders one after the other is the single replacement people have in mind
  only for keys that make no new PLACEHOLDER with the text around them; the exact condition is
  `ConfigSubstitution.IsSafe`, which PLACEHOLDER itself and the empty key fail. The same
  condition on the password says when no PLACEHOLDER is left.
- A cookie sent earlier whose name ends in `session_id` is read in place of the session's:
  `Cookies.CookieComesBackExactly`, `Cookies.LongerNameIsRead`.
- The base64url decoder's accumulator overflows on longer input and is right all the same. The decoder
  also takes text no encoder writes, "Q!Q" for one: which text comes back from re-encoding is
  `Base64Url.TextComesBackExactly`, and with padding `Base64Url.PaddedTextComesBackExactly`.
- Scanning 65 ports of a range is exact as long as at most 64 entries are expected, and 65 entries can
  hide an open port: `PortScan.ShortListIsExact`, `PortScan.OneMoreEntryCanHide`.
- A rule whose last port is below its first, as an ICMP type without a code is, gets no line, because
  the scan of an empty range finds nothing. The documentation promises a line for anything open beyond
  the expected ports; apart from these rules the report keeps that promise:
  `PortScan.TypeWithoutCodeIsSilent`, `PortScan.AccountIsRightExactly`.
- The second pre-release test in the newest-tag loop never decides anything.

## How the models stand to the code

- Characters are Unicode code points for Python and bytes for C++. White space is what Python's
  `str.isspace` says; `\d` in patterns is the ten ASCII digits.
- Python's dictionaries keep their order, so JSON objects are sequences of members.
- Task ids are numbers that are compared only by order. The code makes them from the local time to the
  second and a random suffix, so two tasks in one second can be out of order; theorems that need an
  order say which, with a theorem that says it is needed, and the others hold for any fresh ids.
- What comes from outside is a parameter or an arbitrary event: the clock, random ids and nonces, the
  token exchange, the work on a task, crashes, which files of the repository can be read, the
  logarithm, the tokenizer, and how Python prints values that are not text.

## Model

| member | source | states |
|---|---|---|
| `VoiceQueueRuns.TasksAreConserved` | compose/nuc/voice-worker/runner.py:284-311 | In every run with crashes anywhere, the accepted tasks are exactly those queued, held by the runner, finished or abandoned, each in one of these; the number abandoned is the number of crashes that hit the runner holding a task |
| `VoiceQueueRuns.AdmissionIsBounded` | compose/nuc/voice-worker/dispatch.py:65-77 | While no id has more than d newer ones accepted before it, and d and the bound are together at most 20, the queue never holds more than the bound and live tasks never exceed it by more than one, though the count sees only the 20 newest ids and reads the directories while the runner moves files |
| `VoiceQueueLimits.BoundSurvivesExactly` | compose/nuc/voice-worker/dispatch.py:46-77 | The queue stays within the bound in every run of such disorder if and only if d and the bound are together at most 20 |
| `VoiceQueueLimits.DisorderUnboundsQueue` | compose/nuc/voice-worker/dispatch.py:46-68 | Beyond that the queue can grow to any length: behind finished tasks with newer ids, as after the clock went back, or with a bound above 20 |
| `VoiceQueueLimits.IncreasingIsNoDisorder` | compose/nuc/voice-worker/dispatch.py:68 | Ids that grow with acceptance are the case without disorder |
| `VoiceQueueRuns.LiveExceedsExactly` | compose/nuc/voice-worker/dispatch.py:65-67 | Within that disorder, an acceptance brings the live tasks above the bound if and only if the queue is then full but for one and the runner holds a task that had no status file when the status directory was listed |
| `VoiceQueueRuns.StartsAreFirstInFirstOut` | compose/nuc/voice-worker/runner.py:296-302 | While ids grow with acceptance, tasks start in the order they were accepted, and the queue holds exactly those not started |
| `VoiceQueueOrder.FirstInFirstOutExactly` | compose/nuc/voice-worker/runner.py:296-302 | For given distinct ids, every run that accepts them in this order starts them in this order if and only if no id is directly followed by an older one, where with a bound of one only an id with at least 20 newer ones accepted before it matters; with a bound of two or more that means the ids increase |
| `VoiceQueueOrder.RunStartsInOrder` | compose/nuc/voice-worker/runner.py:296-302 | With a bound of one and no such pair, the tasks started are at every moment the first ones accepted, and those left in the queue increase |
| `VoiceQueueRuns.FilesKeepRequest` | compose/nuc/voice-worker/runner.py:61-66 | Every queue and status file of a task keeps the accepted request, whatever the runner has added |
| `VoiceQueueRuns.AcceptedIsShown` | compose/nuc/voice-worker/dispatch.py:68-77 | At every moment after its acceptance, the queue file of a task is the request, and its status file has each field of it with the same value |
| `VoiceQueueRuns.LooksNeverGoBack` | compose/nuc/voice-worker/dispatch.py:37-43 | Two status requests in a row, each reading its two files at two moments, never see a task move back, and a finished status never changes |
| `VoiceQueueRuns.Persists` | compose/nuc/voice-worker/runner.py:191-240 | Between two moments of a run a task is never queued again, never loses its status file, and never changes once finished |
| `VoiceQueueRuns.RunIsSafe` | compose/nuc/voice-worker/runner.py:284-311 | The invariants about places, contents, conservation, order and counting hold at every moment of every run |
| `VoiceQueueSafety.PlacedStep` | compose/nuc/voice-worker/runner.py:296-311 | Every file operation of either program keeps each id where it may be: in the queue or started, with a status file only after it started |
| `VoiceQueueSafety.FaithfulStep` | compose/nuc/voice-worker/runner.py:61-66 | Every file operation keeps the request in each file as it was accepted |
| `VoiceQueueSafety.KeysAreApart` | compose/nuc/voice-worker/dispatch.py:70-76 | No field the dispatcher writes into a request is one the runner writes into a status file |
| `VoiceQueueSafety.AbandonedStep` | compose/nuc/voice-worker/runner.py:302 | Only a crash abandons tasks, and it abandons just the one the runner holds |
| `VoiceQueueSafety.InOrderStep` | compose/nuc/voice-worker/runner.py:296-302 | Every file operation keeps started tasks a prefix of accepted ones, while ids grow with acceptance |
| `VoiceQueueSafety.PickIsOldest` | compose/nuc/voice-worker/runner.py:296-300 | While ids grow with acceptance, the task picked is the first accepted one not started yet |
| `VoiceQueueSafety.OvertakesStep` | compose/nuc/voice-worker/runner.py:296-302 | Every file operation keeps this, whatever the order of the ids: a task starts before an older one only if that one was accepted later |
| `VoiceQueueBounds.BoundedStep` | compose/nuc/voice-worker/dispatch.py:65-77 | Every file operation keeps the facts the admission bound rests on: whatever is queued is counted or will be |
| `VoiceQueueBounds.QueuedIsListed` | compose/nuc/voice-worker/dispatch.py:46-48 | Within that disorder, every id still queued when the listing ends is among the 20 newest listed |
| `VoiceQueueBounds.AcceptCountsRunning` | compose/nuc/voice-worker/dispatch.py:65-67 | Accepting while the task in progress was listed leaves at most the bound of live tasks |
| `VoiceQueueLimits.LiveBoundIsReached` | compose/nuc/voice-worker/runner.py:302 | The gap between the unlink and the first status file is real: some run with increasing ids has one live task more than the bound |
| `VoiceQueueClosing.QueueIsClosedExactly` | compose/nuc/voice-worker/dispatch.py:65-67 | Between requests, no continuation ever accepts another if and only if at least as many as the bound of the 20 newest ids that have a file, or are in hand, are stuck: their status says running and no runner works on them |
| `VoiceQueueClosing.ClosingNeedsCrashes` | compose/nuc/voice-worker/runner.py:199 | A queue closed for good takes at least as many crashes that hit a task in hand as the bound |
| `VoiceQueueClosing.CanCloseExactly` | compose/nuc/voice-worker/dispatch.py:46-67 | Some run closes the queue for good if and only if the bound is at most 20 |
| `VoiceQueueClosing.CrashesCanCloseQueue` | compose/nuc/voice-worker/runner.py:199 | That happens: with a bound of at most 20, one crash during each of that many tasks closes the queue for good |
| `VoiceWorker.Worker.Start` | compose/nuc/voice-worker/dispatch.py:55-78 | A request is refused for its repository, its length or the active tasks among the 20 newest, changing nothing; or its task is queued with exactly five fields, id, repo, instructions (stripped), requested_by (its first 64 characters) and queued_at, each with its own value; the history stays a run |
| `VoiceWorker.StatusShowsRequest` | compose/nuc/voice-worker/runner.py:61-66 | The status file of a task shows every field of its request: the same id, repository and instructions |
| `VoiceWorker.Worker.RunOne` | compose/nuc/voice-worker/runner.py:296-311 | One undisturbed turn takes the oldest task out of the queue and leaves it with a final status that keeps its request |
| `VoiceWorker.Worker.Process` | compose/nuc/voice-worker/runner.py:191-240 | The status writes of one task end in the given final state with the request kept |
| `VoiceWorker.Worker.WriteStatus` | compose/nuc/voice-worker/runner.py:61-66 | The new fields are merged into the task and replace its status file |
| `VoiceWorker.Worker.PickOldest` | compose/nuc/voice-worker/runner.py:296-300 | The first of the sorted listing is the smallest id |
| `VoiceWorker.Worker.ReadTask` | compose/nuc/voice-worker/runner.py:301 | What the runner holds is the content of the queue file, which is still there |
| `VoiceWorker.Worker.UnlinkQueueFile` | compose/nuc/voice-worker/runner.py:302 | The task leaves the queue and then has neither a queue file nor a status file |
| `VoiceWorker.Worker.ListStatusEnds` | compose/nuc/voice-worker/dispatch.py:47 | The listing of the status directory holds what was there when it began and any of what came since |
| `VoiceWorker.Worker.ListQueueEnds` | compose/nuc/voice-worker/dispatch.py:47-48 | The listing of the queue holds what is still there and any of what went since it began; the ids kept are the 20 newest of both, newest first |
| `VoiceWorker.Worker.CountRecent` | compose/nuc/voice-worker/dispatch.py:65 | Undisturbed, the count is of the active ids among the 20 newest of both directories |
| `VoiceWorker.Worker.LoadNext` | compose/nuc/voice-worker/dispatch.py:37-43 | An id counts if its status says running, or if it has no status and is still queued |
| `VoiceWorker.Worker.LoadAll` | compose/nuc/voice-worker/dispatch.py:65 | The count is of the active ids among those listed |
| `VoiceWorker.Worker.AcceptRequest` | compose/nuc/voice-worker/dispatch.py:68-77 | The request appears in the queue under its id in one step |
| `VoiceWorker.Worker.DenyRequest` | compose/nuc/voice-worker/dispatch.py:66-67 | A refused request leaves both directories alone |
| `VoiceWorker.Worker.CrashRunner` | compose/nuc/voice-worker/runner.py:289-311 | A crash loses only what the process held in memory |
| `VoiceWorker.Recent` | compose/nuc/voice-worker/dispatch.py:46-48 | The ids kept are the n newest, in falling order |
| `PreviewComposeProofs.RewriteIsIdempotent` | scripts/hub/preview-compose.py:71-142 | Whenever the rewrite succeeds, running it again on its output, strict or not, gives the same services, port and routed service and drops nothing; a strict rerun fails exactly if the routed service does not run the image |
| `PreviewComposeProofs.AcceptedIsConfined` | scripts/hub/preview-compose.py:62-142 | Any accepted fragment has only allowed settings, only the preview network, the platform limits on every service, no dependency list or map that names a missing service (a text in its place is left as it is), and router labels on exactly one service, which runs the image in strict mode |
| `PreviewComposeProofs.AcceptedExactly` | scripts/hub/preview-compose.py:71-129 | A fragment is accepted if and only if every service can be processed, exactly one is routed, it names a port and, in strict mode, runs the image |
| `PreviewComposeProofs.SimpleIsAccepted` | scripts/hub/preview-compose.py:71-140 | One service that runs the image and asks to be routed to a port is accepted, for every application, pull request and image, strict or not |
| `PreviewComposeProofs.RewrittenIsConfined` | scripts/hub/preview-compose.py:91-122 | Whatever a service says, its rewritten form is confined and unlabelled |
| `PreviewComposeProofs.ConfinedIsKept` | scripts/hub/preview-compose.py:91-122 | A confined service is a fixpoint of the rewrite, labels aside |
| `PreviewComposeProofs.RouterLabelsParse` | scripts/hub/preview-compose.py:78-83 | The labels that are printed are read back as enabled with the same port |
| `PreviewComposeProofs.LabelPortDecides` | scripts/hub/preview-compose.py:81-83 | The port label parser accepts exactly the texts of the pattern whose digits are ASCII |
| `PreviewComposeProofs.LoopAccepts` | scripts/hub/preview-compose.py:71-123 | Services that can be processed, one of them routed, get through the loop and come out rewritten |
| `PreviewComposeProofs.LoopGoesOnlyWhenAcceptable` | scripts/hub/preview-compose.py:84-89 | Nothing else gets through the loop |
| `PreviewComposeProofs.NewDependsWithin` | scripts/hub/preview-compose.py:118-122 | Dependencies are cut down to services of the file, and left alone if they already are |
| `PreviewComposeProofs.NewEnvIsPreview` | scripts/hub/preview-compose.py:95-100 | The environment names the preview project, and an environment that does so already is left alone |
| `PreviewComposeScript.Rewrite` | scripts/hub/preview-compose.py:44-142 | The script, pop by pop and assignment by assignment, computes the rewrite the theorems are about |
| `PreviewComposeScript.RewriteService` | scripts/hub/preview-compose.py:91-122 | The loop body computes the rewritten service and the keys it reports |
| `PreviewComposeScript.ScanLabels` | scripts/hub/preview-compose.py:76-83 | The label loop finds whether routing is enabled and the last port named |
| `PreviewComposeScript.ProcessOne` | scripts/hub/preview-compose.py:71-123 | One turn of the loop, with its three early exits |
| `PreviewComposeMeaning.AppImagesAreReplaced` | scripts/hub/preview-compose.py:93-94 | In an accepted fragment a service runs the pull request's image if its own, with any tag or none, is of the same repository or of the one whose preview repository that image is of; every other service keeps its image |
| `PreviewComposeMeaning.OwnImageExactly` | scripts/hub/preview-compose.py:93-94 | The test for the app's own image decides just that relation between the two images |
| `PreviewComposeMeaning.AppImageIsReplaced` | scripts/hub/preview-compose.py:54-58 | For every repository and any tags: repo:u is replaced by repo:t and by repo-preview:t, and so is repo itself |
| `PreviewComposeMeaning.OtherImageIsKept` | scripts/hub/preview-compose.py:54-58 | An image of any other repository is not |
| `PreviewComposeMeaning.ServiceComesOut` | scripts/hub/preview-compose.py:71-123 | In an accepted fragment the services come out in their order under their names, each, labels apart, as rewritten for itself |
| `PreviewComposeMeaning.OthersComeOut` | scripts/hub/preview-compose.py:62-115 | Twelve settings come out as they were, and none that is neither one of these nor replaced comes out at all |
| `PreviewComposeMeaning.PlatformComesOut` | scripts/hub/preview-compose.py:101-107 | The env file, the network, the limits and the security settings that every service gets |
| `PreviewComposeMeaning.EnvironmentComesOut` | scripts/hub/preview-compose.py:95-100 | Every variable keeps its value, from a mapping, a list or nothing, but for APP_NAME and PREVIEW |
| `PreviewComposeMeaning.LastItemSets` | scripts/hub/preview-compose.py:96-97 | In a list of variables, KEY=value cut at its first equals sign or KEY alone for an empty value, the last item that names a variable sets it |
| `PreviewComposeMeaning.UnnamedIsUnset` | scripts/hub/preview-compose.py:96-97 | A variable no item names is not set |
| `PreviewComposeMeaning.DependsComesOut` | scripts/hub/preview-compose.py:118-122 | A list or a mapping of dependencies keeps what is in the file, in its order; anything else is left as it is |
| `PreviewComposeMeaning.FailsExactly` | scripts/hub/preview-compose.py:91-122 | A service cannot be rewritten exactly for an environment that is neither a mapping, nor a list of texts, nor falsy, or a dependency list that holds a list or a mapping |
| `PreviewComposeMeaning.MappingEnables` | scripts/hub/preview-compose.py:73-80 | A mapping of labels asks for routing exactly if some key and value make traefik.enable=true |
| `PreviewComposeMeaning.LastLabelNamesPort` | scripts/hub/preview-compose.py:81-83 | The port is that of the last label that names one |
| `PreviewComposeMeaning.OtherLabels` | scripts/hub/preview-compose.py:73-81 | A list of texts is read as it is, falsy labels and a text ask for nothing, and the rest is an error |
| `PreviewComposeMeaning.RouterLabelsSay` | scripts/hub/preview-compose.py:131-140 | The eight labels of the routed service |
| `PreviewComposeMeaning.DroppedExactly` | scripts/hub/preview-compose.py:108-117 | Reported for each service are exactly the settings that are neither allowed nor among the six dropped silently |
| `PreviewComposeMeaning.RefusalIsJustified` | scripts/hub/preview-compose.py:44-129 | Each reason for a refusal holds: the service it names has that fault, or nothing is routed, or, in strict mode only, the routed service does not run the image |
| `PreviewComposeMeaning.BadArgsExactly` | scripts/hub/preview-compose.py:44-45 | The arguments are refused exactly for an empty application or pull request or a character outside the two patterns |
| `Base64Url.Decode` | templates/cpp/src/oidc_client.cpp:22-49 | With a 32-bit accumulator that is never masked and wraps, the bytes are those the sextets of the text stand for |
| `Base64Url.RoundTrip` | templates/cpp/src/oidc_client.cpp:22-49 | Decoding the encoding of section 5 of RFC 4648, padded or not, gives back every byte string |
| `Base64Url.TextComesBackExactly` | templates/cpp/src/oidc_client.cpp:22-49 | Re-encoding what a text decodes to gives the same text if and only if all its characters are of the URL alphabet and the bits its last group leaves over are zero; every other text is decoded too |
| `Base64Url.PaddedTextComesBackExactly` | templates/cpp/src/oidc_client.cpp:27-49 | The same for the padded encoding: the text before the first = is such a text, and what follows is exactly its padding |
| `Base64Url.SkippedCharacterIsLost` | templates/cpp/src/oidc_client.cpp:38-39 | The text Q!Q is decoded as QQ is, and comes back as QQ |
| `Base64Url.EncodeInvertsExactlyCanonical` | templates/cpp/src/oidc_client.cpp:40-47 | For sextets, that is texts of the alphabet alone: re-encoding what they join to gives them back if and only if the bits left over are zero |
| `Base64Url.Turn` | templates/cpp/src/oidc_client.cpp:41-46 | One turn keeps the pending bits right, with bits below 8 between turns |
| `Base64Url.WrapKeepsLowBits` | templates/cpp/src/oidc_client.cpp:41 | Wrapping at 32 bits never touches the low bits that are still needed |
| `Base64Url.RegroupPush` | templates/cpp/src/oidc_client.cpp:41-46 | One more sextet completes a byte unless no bits were pending |
| `Base64Url.ToStandard` | templates/cpp/src/oidc_client.cpp:23-26 | Changing - and _ to + and / keeps the sextets |
| `Base64Url.Padded` | templates/cpp/src/oidc_client.cpp:27 | Padding adds at most three = signs, up to a multiple of four |
| `Base64Url.BuildLookup` | templates/cpp/src/oidc_client.cpp:29-33 | The lookup table is the inverse of the alphabet, and -1 elsewhere |
| `Base64Url.Value` | templates/cpp/src/oidc_client.cpp:31-39 | A character stands for its index in the alphabet, and for nothing if it is not there |
| `Base64Url.ClaimsAreSecondPart` | templates/cpp/src/oidc_client.cpp:65-72 | The claims are the decoded second part of the token, if it has three |
| `Base64Url.ClaimsRoundTrip` | templates/cpp/src/oidc_client.cpp:65-72 | Claims put into a token are read back, whatever its header and signature are |
| `UrlEncoding.Encode` | templates/cpp/src/http_server.cpp:19-30 | The loop computes the encoding the round trips are about |
| `UrlEncoding.EncodingRoundTrip` | templates/cpp/src/http_server.cpp:19-30 | Decoding (section 2.1 of RFC 3986) what is encoded gives back every byte string |
| `UrlEncoding.EncodedIsSafe` | templates/cpp/src/http_server.cpp:19-30 | Only unreserved characters (section 2.3 of RFC 3986) and % signs appear |
| `UrlEncoding.QueryRoundTrip` | templates/cpp/src/http_server.cpp:81-90 | Parsing the login query at & and = gives exactly the six parameters, for every client id and address |
| `UrlEncoding.QuerySays` | templates/cpp/src/http_server.cpp:81-90 | The six parameters by name and value, in order |
| `UrlEncoding.ByteComesOut` | templates/cpp/src/http_server.cpp:19-30 | A byte is written as it is if it is a letter, a digit or one of -_.~, and else as a percent sign and its two hexadecimal digits in capitals |
| `Login.GateIsExact` | templates/cpp/src/http_server.cpp:64-146 | With authentication configured, in every interleaving, a request for a route that is not public gets through if and only if it brings an id for which this happened: /login drew it, a later callback brought it as state and cookie with a code, the thread serving that callback exchanged its code successfully and marked the session, serving nothing else from the callback to the mark, and /login has not drawn the id again since |
| `Login.RunIsEarned` | templates/cpp/src/http_server.cpp:96-123 | In every run each session was created by /login, each authenticated one has the history of the gate, and each callback in progress has that history up to where it is, its thread having served nothing else |
| `Login.LoginLetsIn` | templates/cpp/src/http_server.cpp:64-146 | The way in exists: a run whose events are one login, the callback with its id and a code, the successful exchange and the mark lets that id through to any route |
| `Login.FailedExchangeTellsNothing` | templates/cpp/src/http_server.cpp:114-122 | A thread whose exchange for one id fails and that then succeeds for another gives the first id no such history |
| `Login.OnlyLoginCreatesSessions` | templates/cpp/src/session_store.cpp:26-31 | Marking a session never creates one, however long ago it was looked up: only /login adds sessions |
| `Login.StaysAuthenticated` | templates/cpp/src/session_store.cpp:26-31 | An authenticated session stays so until /login draws the same id again |
| `Cookies.CookieComesBackExactly` | templates/cpp/src/http_server.cpp:32-41 | The cookie /login sets is read back, whatever its id, if and only if its name and = do not occur in the part of the header before it |
| `Cookies.MissingCookieIsEmpty` | templates/cpp/src/http_server.cpp:33-36 | Without the name and its = in the header, or without a header, the cookie is empty |
| `Cookies.LongerNameIsRead` | templates/cpp/src/http_server.cpp:35-40 | A cookie sent first whose name ends in session_id is read instead |
| `Login.HttpServer.HandleLogin` | templates/cpp/src/http_server.cpp:64-94 | The login route creates the session it puts into the cookie and, read back from the redirect's query, into the state, with the client id and the callback address of the app; or it answers 501 or 502 and changes nothing |
| `Login.HttpServer.HandleCallback` | templates/cpp/src/http_server.cpp:96-112 | The callback goes on to the exchange exactly if code, state and cookie agree and the session exists; else 400 or 501 |
| `Login.HttpServer.FinishCallback` | templates/cpp/src/http_server.cpp:114-122 | A failed exchange changes no session; a successful one marks exactly that one |
| `Login.HttpServer.PreRoute` | templates/cpp/src/http_server.cpp:128-146 | The gate lets through exactly the requests allowed, and answers 401 below /api/ and a redirect elsewhere |
| `Login.SessionStore.Create` | templates/cpp/src/session_store.cpp:19-24 | A fresh session under the drawn id, nothing else changed |
| `Login.SessionStore.SetAuthenticated` | templates/cpp/src/session_store.cpp:26-31 | The session under the id, made if missing, is authenticated with the address |
| `ConfigSubstitution.TwoPassesAreOneExactlyForSafeKeys` | routeros/apply-config.py:160-181 | Replacing the WG token and then PLACEHOLDER equals one left-to-right pass, for every text and password, if and only if the key makes no PLACEHOLDER with the text around it |
| `ConfigSubstitution.TwoPassesAreOne` | routeros/apply-config.py:160-181 | For such a key the two passes are the single pass on every text |
| `ConfigSubstitution.PlaceholderKeyIsReplaced` | routeros/apply-config.py:160-181 | A key that is PLACEHOLDER itself is unsafe: the second pass puts the password in its place |
| `ConfigSubstitution.WgTokenPasswordIsReplaced` | routeros/apply-config.py:152-157 | A password that is the WG token makes one: in the other order the key takes its place |
| `ConfigSubstitution.OtherOrderLosesKeyExactly` | routeros/apply-config.py:152-157 | In the other order the key is never inserted, whatever the text, if and only if the password makes no WG token with parts of one around it |
| `ConfigSubstitution.NothingLeftExactly` | routeros/apply-config.py:180-181 | After the second replacement no PLACEHOLDER is left, whatever the text, if and only if the password makes none with the text around it |
| `ConfigSubstitution.Prepare` | routeros/apply-config.py:158-181 | Without a key the run refuses exactly when a WG token is present; otherwise the text is the two passes, and one pass for a safe key |
| `ConfigSubstitution.NoWgToken` | routeros/apply-config.py:165-181 | Without a WG token the single pass is the second replacement alone |
| `DocChunks.ChunkingLosesNothing` | compose/aws/home-mcp/context.py:76-104 | For every document the texts of the chunks, in order, hold the non-white characters of all lines that are not headings, in order |
| `DocChunks.ChunkIsPlaced` | compose/aws/home-mcp/context.py:76-104 | Each chunk comes from the lines of one section and stands under the headings that survive up to its end, is stripped and not empty, and is within the size limit or has no later bullet to cut at |
| `DocChunks.HeadingOfDecides` | compose/aws/home-mcp/context.py:91-100 | A line is a heading exactly if one to four # signs and white space start it; the rest, stripped, is the title |
| `DocChunks.OnlyTitleIsDropped` | compose/aws/home-mcp/context.py:80-83 | The breadcrumb leaves out only a level-one title, and only if there is more |
| `DocChunks.SurvivorsStep` | compose/aws/home-mcp/context.py:95-100 | Popping to the parent level and pushing gives exactly the headings no later one equals or outranks |
| `DocChunks.SurvivorsRise` | compose/aws/home-mcp/context.py:96-100 | Levels strictly rise along the breadcrumb, for any sequence of levels |
| `DocChunks.PiecesAreWhole` | compose/aws/home-mcp/context.py:86 | Cutting at bullets loses nothing |
| `DocChunks.PiecesCannotBeCut` | compose/aws/home-mcp/context.py:86 | No piece has a later line that starts a bullet |
| `DocChunks.TextsKeep` | compose/aws/home-mcp/context.py:84-88 | The texts of a section hold its characters, and each can stand alone |
| `DocChunks.Flush` | compose/aws/home-mcp/context.py:76-88 | The inner function computes the chunks of the open section |
| `DocChunks.Pop` | compose/aws/home-mcp/context.py:98-99 | The loop pops to the parent level |
| `DocChunks.ChunkDocument` | compose/aws/home-mcp/context.py:71-104 | The loop over the lines computes the chunks the theorems are about, and loses nothing |
| `DocPlaces.ChunkIsInSection` | compose/aws/home-mcp/context.py:76-104 | Every chunk is a contiguous part of the lines, joined, between two headings or an end of the document, and its heading is the titles of the headings above that no later one equals or outranks, in document order, without the document's own if there are others; or the path if that is empty |
| `DocPlaces.SectionIsSpaced` | compose/aws/home-mcp/context.py:76-88 | The lines of a section, joined, are the texts of its chunks in order with nothing but white space around and between them |
| `DocPlaces.ShortSectionIsWhole` | compose/aws/home-mcp/context.py:84-86 | A section of at most 2500 characters is one chunk |
| `DocPlaces.LongSectionIsCutAtBullets` | compose/aws/home-mcp/context.py:85-86 | A longer one is cut only where a line starts a bullet, and at all of these |
| `DocPlaces.CrumbsTogether` | compose/aws/home-mcp/context.py:83 | Titles stand in their order, with > between any two neighbours |
| `DocPlaces.BreadcrumbShows` | compose/aws/home-mcp/context.py:82-83 | The breadcrumb is those titles, or the path if they come to nothing |
| `Bm25.Rank` | compose/aws/home-mcp/context.py:146-164 | The result is exactly the chunks sharing a token with the query, once each, with positive scores that never rise and ties in document order |
| `Bm25.RankingIsUnique` | compose/aws/home-mcp/context.py:164 | There is only one such result |
| `Bm25.ScoreSign` | compose/aws/home-mcp/context.py:154-163 | A score is positive exactly for a chunk that shares a token with the query, and zero otherwise |
| `Bm25.RarerWeighsMore` | compose/aws/home-mcp/context.py:160 | A token that fewer chunks hold weighs more |
| `Bm25.MoreOftenScoresMore` | compose/aws/home-mcp/context.py:157-161 | More of a token in a chunk of the same length scores more |
| `Bm25.ShorterScoresMore` | compose/aws/home-mcp/context.py:161 | As much of a token in a shorter chunk scores more |
| `Bm25.ScoreOfExample` | compose/aws/home-mcp/context.py:160-161 | The score of one query in one small index, to the last constant, and its double for the query said twice |
| `Bm25.CountIsMultiplicity` | compose/aws/home-mcp/context.py:157 | The count of a token is its multiplicity in the chunk |
| `Bm25.HoldersExactly` | compose/aws/home-mcp/context.py:152 | The number of chunks that hold a token |
| `Bm25.AverageIsPositive` | compose/aws/home-mcp/context.py:151-161 | No score divides by zero: a chunk with a token makes the average length positive |
| `Bm25.SortedIsOrdered` | compose/aws/home-mcp/context.py:164 | Sorting keeps the hits and orders them by falling score, ties in document order |
| `Bm25.ScoreChunk` | compose/aws/home-mcp/context.py:155-161 | The inner loop computes the score |
| `IncludeWorklist.Images` | compose/aws/home-mcp/updates.py:342-354 | For every include graph, cycles and unreadable files included, the loop ends, requests each path reachable through readable files exactly once, collects exactly the union of their images, and lists exactly the unreadable ones |
| `IncludeWorklist.ReachableIsLeastClosed` | compose/aws/home-mcp/updates.py:342-354 | What is reachable is the least set with the roots that is closed under the includes of readable files |
| `IncludeWorklist.IncludesInCompose` | compose/aws/home-mcp/updates.py:115-123 | The list of what the entries name, in their order, each resolved from the file |
| `IncludeWorklist.IncludesAreNamed` | compose/aws/home-mcp/updates.py:115-123 | A path is in that list exactly if some entry names it: a text, a mapping with that path, or one with that path in its list |
| `IncludeWorklist.RelsAreNamed` | compose/aws/home-mcp/updates.py:120-122 | The paths of an entry are those it names |
| `IncludeWorklist.EachKindInOrder` | compose/aws/home-mcp/updates.py:119-122 | One entry of each kind: the paths come in the order of the entries, those of a list in its own, and none for a mapping without a path |
| `NewestTag.NewestSameShape` | compose/aws/home-mcp/updates.py:83-98 | The result is the first listed tag of the current shape that is newer than the current one and than which no such tag is newer; none exactly if there is none |
| `NewestTag.AnswerIsUnique` | compose/aws/home-mcp/updates.py:83-98 | That determines the result |
| `NewestTag.AnswerIsUpToDate` | compose/aws/home-mcp/updates.py:83-98 | Asked again from the answer, the same list holds nothing newer |
| `NewestTag.MoreTagsNeverOlder` | compose/aws/home-mcp/updates.py:90-97 | More tags never make the answer older |
| `NewestTag.NoAnswerMeansUpToDate` | compose/aws/home-mcp/updates.py:86-98 | From a release, no answer means that every listed tag of its shape is as old or older |
| `NewestTag.CandidateExactly` | compose/aws/home-mcp/updates.py:83-96 | Newer than a printed release are exactly the tags with the same prefix and suffix and as many numbers, greater where they first differ |
| `NewestTag.PrereleaseExactly` | compose/aws/home-mcp/updates.py:54 | A pre-release is a suffix with one of the ten words in it, in letters of either case |
| `NewestTag.SecondTestIsRedundant` | compose/aws/home-mcp/updates.py:94-95 | The pre-release test in the loop never decides anything |
| `NewestTag.LessIsFirstDifference` | compose/aws/home-mcp/updates.py:96 | Versions are ordered where they first differ |
| `NewestTag.LessIsTotal` | compose/aws/home-mcp/updates.py:96 | Of two versions exactly one is less, or they are equal |
| `NewestTag.LessIsTransitive` | compose/aws/home-mcp/updates.py:96 | The order on versions is transitive |
| `NewestTag.ParsesWhatIsBuilt` | compose/aws/home-mcp/updates.py:55-80 | A prefix, numbers in ASCII digits joined by dots and a suffix, with or without a last newline, come apart into themselves |
| `NewestTag.PrintedTagParses` | compose/aws/home-mcp/updates.py:74-80 | A prefix, a printed version and a suffix parse back to themselves, numbers included |
| `NewestTag.ParsedIsBuilt` | compose/aws/home-mcp/updates.py:55-80 | Every tag that parses, with ASCII digits, is put together so |
| `NewestTag.ComponentsAreUnique` | compose/aws/home-mcp/updates.py:55 | The greedy pattern has just one way to take a tag apart |
| `PortScan.SecurityGroups` | compose/aws/home-mcp/aws_posture.py:93-114 | The report of the truncated scan; with at most 64 expected entries it is the one promised if and only if the account has no empty range that starts at an unexpected port |
| `PortScan.AccountIsRightExactly` | compose/aws/home-mcp/aws_posture.py:93-114 | With a list the scan is exact for, the report of an account is the one promised, a line for all that is open beyond the expected ports, if and only if no rule in it has an empty range that starts at an unexpected port |
| `PortScan.UnlistedSilentExactlyWhenEmpty` | compose/aws/home-mcp/aws_posture.py:104-113 | With nothing of its protocol expected, such a rule gets no line if and only if its range is empty |
| `PortScan.TypeWithoutCodeIsSilent` | compose/aws/home-mcp/aws_posture.py:104-113 | All of ICMP type 8 open to the world gets no line, whatever is expected, though one is promised unless it is |
| `PortScan.ReportIsRightExactly` | compose/aws/home-mcp/aws_posture.py:93-114 | Over the accounts without such empty ranges, the report is the one promised on all of them if and only if the scan is exact for every protocol |
| `PortScan.ExactExactlyWithoutLongRun` | compose/aws/home-mcp/aws_posture.py:109-110 | Scanning 65 ports is exact if and only if no 65 ports in a row are all expected |
| `PortScan.ShortListIsExact` | compose/aws/home-mcp/aws_posture.py:109-110 | At most 64 expected entries make the scan exact, by pigeonhole |
| `PortScan.ShortSettingIsExact` | compose/aws/home-mcp/aws_posture.py:37-41 | So does a setting with at most 64 comma-separated parts |
| `PortScan.ExpectedOpenExactly` | compose/aws/home-mcp/aws_posture.py:37-41 | A port of a protocol is expected if and only if some part of the setting, stripped, is the protocol, a slash and the port, which is not empty |
| `PortScan.EntryExactly` | compose/aws/home-mcp/aws_posture.py:39-41 | In an entry the protocol stands before the first slash and the port behind it |
| `PortScan.DefaultSetting` | compose/aws/home-mcp/aws_posture.py:39 | By default tcp ports 80 and 443 and udp port 51820 are expected |
| `PortScan.OpenRuleExamples` | compose/aws/home-mcp/aws_posture.py:97-113 | The line of a rule for one port over IPv4 and of one for a range over IPv6 |
| `PortScan.OtherRuleExamples` | compose/aws/home-mcp/aws_posture.py:97-108 | All traffic, said in three ways, gets its line, and ranges other than the world get none |
| `PortScan.ReportTogether` | compose/aws/home-mcp/aws_posture.py:95-113 | Pages are reported one after the other |
| `PortScan.Pigeonhole` | compose/aws/home-mcp/aws_posture.py:109-110 | Among more ports than there are expected entries, one is unexpected |
| `PortScan.OneMoreEntryCanHide` | compose/aws/home-mcp/aws_posture.py:109 | 65 entries are enough to hide an open port |
| `PortScan.DecimalIsInjective` | compose/aws/home-mcp/aws_posture.py:110 | Different ports are different texts, negative ones included |
| `PortScan.Scan` | compose/aws/home-mcp/aws_posture.py:109-113 | The innermost loop finds an unexpected port of the window exactly if there is one |
| `PortScan.RuleReport` | compose/aws/home-mcp/aws_posture.py:99-113 | The line one rule gets |
| `PortScan.GroupReport` | compose/aws/home-mcp/aws_posture.py:98-113 | The lines of one group, in the order of its rules |
| `PortScan.PageReport` | compose/aws/home-mcp/aws_posture.py:96-113 | The lines of one page, in the order of its groups |
| `DagArchive.Staging.Unpack` | scripts/hub/app-dags.py:26-54 | Nothing is written unless no member is bad and the regular ones are at most 200; then exactly the paths that the names of regular members, without a leading ./, lead to are files, each with the data of its last member, and exactly their proper prefixes are directories; a refusal names the first bad member or the number |
| `DagArchive.WordExactly` | scripts/hub/app-dags.py:23 | A word of a name: letters, digits, _ and -, not starting with - |
| `DagArchive.BadExactly` | scripts/hub/app-dags.py:30-43 | A member is bad if and only if it is no directory, its name without a leading ./ is neither empty nor a dot, and it is not regular, or named against the pattern, or over 1 MiB, reported in that order |
| `DagArchive.TakenHolds` | scripts/hub/app-dags.py:48-52 | What is written for the accepted members, in terms of the archive's members |
| `DagArchive.Staging.WriteAll` | scripts/hub/app-dags.py:48-52 | Every write meets what the operating system requires of it |
| `DagArchive.Check` | scripts/hub/app-dags.py:28-47 | The loop refuses exactly the archives with a bad member or too many files, for the first bad one |
| `DagArchive.NamesStayUnder` | scripts/hub/app-dags.py:23 | An accepted name leads to a place below the destination |
| `DagArchive.NamesDoNotNest` | scripts/hub/app-dags.py:23 | No accepted name is a directory on the way to another |
| `DagArchive.NamesAreGenerated` | scripts/hub/app-dags.py:23 | The accepted names are exactly words ended by slashes and a word ended by .py |
| `DagArchive.NoConflict` | scripts/hub/app-dags.py:48-52 | When a file is written, no directory on its way is a file and no directory has its name |
| `DagArchive.LastBytesAreTheLast` | scripts/hub/app-dags.py:48-52 | Of files with one name the last one's bytes stay |
| `DagArchive.OnlyNeededDirectories` | scripts/hub/app-dags.py:50 | The directories made are exactly those on the way to a file |
| `DagArchive.Taken` | scripts/hub/app-dags.py:30-44 | Only allowed names within the size limit are taken |

## Left out

- Two `start` requests at once: requests are served one at a time, interleaved with the runner in every way.
- The runner's listing of the queue is taken as one moment; the dispatcher's two listings are not.
- Reading the dispatcher's files: a file found is read as it is then; a queue file that vanishes under a status reader is only ever absent.
- The `status`, `list` and `health` commands apart from how `status` reads a task; parsing the request's JSON.
- The id written inside a task's file is taken to be the one in the file's name, as the dispatcher writes it.
- Git, Docker, GitHub and the agent inside a task: any sequence of status writes followed by success or failure.
- YAML and JSON parsing and printing, `yq`, tar and HTTP: the models start from parsed values and end with values to print. A service that is not a mapping is not modelled.
- `PreviewCompose` stops with an error where Python would raise one, without saying which exception it is; the GITHUB_OUTPUT file and the messages are not modelled.
- Discovery of the login endpoints, TLS, signature checks and the quality of random tokens; `/login` may draw any id, even one in use.
- `UrlEncoding` takes the locale of `isalnum` to be the C locale.
- The RouterOS script's connection, backups and upload, and fetching the secrets.
- `DocChunks` takes the document as text; fetching, caching, aliases and the length limits of a reply are not modelled.
- `Bm25` computes over the reals, so rounding, and a score that rounds to zero, are not modelled; how a query becomes tokens is not either.
- `IncludeWorklist` takes resolving a relative path as a function; a document of the wrong shape, which raises an error nothing catches, is not modelled.
- `NewestTag` matches pre-release words against ASCII letters only; registries, caching and end-of-life dates are not modelled.
- `PortScan` takes a rule to have both ports or neither, as the EC2 API does.
- `DagArchive` takes a member's size to be the length of its data, and no failure of the disk while writing.
- PreviewComposeProofs.LabelPortDecides: the ten ASCII digits only, where Python's `\d` also takes the decimal digits of other scripts, which no port in a label is written with.
- NewestTag.ParsedIsBuilt: the ten ASCII digits only, for the same reason; registries allow only ASCII in a tag.
- NewestTag.ParsesWhatIsBuilt: the ten ASCII digits only, for the same reason.
- The other tools, exporters, deploy scripts, Terraform, Ansible and Compose files: configuration, formatting and I/O with easy properties.
