# Sidecar stop check

`fargate-sidecar-datadog-agent` is a supervisor that runs a wrapped agent
process beside the containers of an ECS task. Once a second it fetches the
task document from the container metadata endpoint
(`${ECS_CONTAINER_METADATA_URI}/task`) and decides whether every sibling
container has stopped; when it has, it tells the coordinator to exit so
the sidecar does not keep the task alive. Containers whose name matches the
ignore pattern `^~internal~.*` (the platform's own internal containers) are
not waited for.

This project models that decision, in `sidecar.dfy` (module `Sidecar`):

- `Container` and `EcsTask` are the decoded task document (name and
  `KnownStatus` of each container, in the endpoint's order).
- `IsIgnored` is the ignore pattern. The pattern is `^`, a literal and `.*`,
  so a match is exactly "the name starts with `~internal~`"; it is modelled
  as that prefix test, not as a regular expression engine.
- `AllRelevantStopped` is the verdict: every container not ignored has status
  exactly `STOPPED`; an empty relevant set counts as stopped.
- `CheckContainersStopped` is the scan of a tick as the source writes it:
  `isStopped` starts true, the loop walks the containers and sets it false
  and breaks at the first relevant container that has not stopped. It is
  proved to return `AllRelevantStopped`, so the early exit gives the same
  answer as checking the whole list.
- `PollTick` is a successful tick: `Done` (the send on the completion
  channel) exactly when the verdict holds, `Continue` otherwise.
- `FirstDoneTick` is the ticker loop, run over the sequence of task documents
  fetched on successive ticks (the network is a parameter): it reports the
  first tick that signals completion.
- `Relevant` and `AllStopped` give a second definition of the verdict
  ("all relevant containers stopped"), proved equal to the first, and the
  remaining lemmas state the properties of the verdict: ignored containers
  never matter, the container order does not matter, the match is anchored,
  the status comparison is exact.

## Model

| member | source | states |
|---|---|---|
| `Sidecar.CheckContainersStopped` | main.go:105-112 | the flag returned by the scan with early `break` equals the verdict over the whole container list |
| `Sidecar.PollTick` | main.go:114-116 | a successful tick signals completion exactly when every relevant container has stopped, and keeps polling exactly when one has not |
| `Sidecar.FirstDoneTick` | main.go:97-118 | over the tasks fetched on successive ticks, the tick reported is the first whose verdict is true; none is reported exactly when no verdict is true |
| `Sidecar.Relevant` | main.go:107-108 | the containers the check looks at are exactly those of the task whose name the ignore pattern does not match |
| `Sidecar.MembershipForm` | main.go:105-112 | the verdict holds exactly when every container value in the task that is not ignored has status `STOPPED` |
| `Sidecar.VerdictIsAllRelevantAreStopped` | main.go:105-112 | the verdict equals "every relevant container has stopped", computed on the relevant containers alone |
| `Sidecar.EmptyTaskIsStopped` | main.go:105-106 | a task with no containers is reported as stopped |
| `Sidecar.RelevantRunningBlocks` | main.go:108-110 | one relevant container whose status is not `STOPPED` makes the verdict false |
| `Sidecar.IgnoredInsertNeutral` | main.go:107-108 | adding (or, read backwards, removing) an ignored container at any position leaves the verdict unchanged |
| `Sidecar.IgnoredUpdateNeutral` | main.go:107-108 | replacing an ignored container by another ignored container, whatever either status, leaves the verdict unchanged |
| `Sidecar.OrderIrrelevant` | main.go:106-111 | two container lists that are permutations of each other get the same verdict |
| `Sidecar.IgnoredIffStartsWithPrefix` | main.go:21 | a name is ignored if and only if it is `~internal~` followed by some rest |
| `Sidecar.PrefixLaterIsRelevant` | main.go:21 | a name with `~internal~` only after a non-empty start that is not `~` is not ignored |
| `Sidecar.AnchorName` | main.go:21 | a name shorter than `~internal~` is never ignored |
| `Sidecar.AnchorExamples` | main.go:21 | `app~internal~` is not ignored, `~internal~sidecar` is |
| `Sidecar.StatusComparisonIsExact` | main.go:108 | a single relevant container counts as stopped if and only if its status is exactly `STOPPED` |
| `Sidecar.StatusExamples` | main.go:108 | statuses `stopped` and `STOPPED ` count as not stopped |
| `Sidecar.InternalSidecarIgnoredScenario` | main.go:105-112 | an internal sidecar still `RUNNING` beside an `app` container that is `STOPPED` gives the verdict "stopped" |

## Left out

- `GetEcsTask` (main.go:123-135): an HTTP GET and a JSON decode through the
  Go standard library. The model takes the already decoded containers as a
  parameter. Elements are assumed non-nil; a JSON `null` in the container
  array would make the source dereference nil at main.go:108.
- The error path of a tick (main.go:101-103): after sending the error the
  source falls through and dereferences a nil task, and what happens then
  depends on a race with the fatal exit. Only successful ticks are modelled.
- `ExecCmd` and `cmd.Wait` (main.go:80-90, main.go:65): process spawning and
  operating system I/O.
- `SignalHandler` (main.go:138-148): operating system signals and a
  5-second sleep.
- `Run` (main.go:53-77): its three goroutines and the `select` over the
  error and completion channels are concurrency, not modelled.
- The ticker's one-second timing (main.go:94-99) and the regular expression
  being compiled again for every container (main.go:107), which has no
  effect on behaviour.
- FirstDoneTick: models only up to the first completion. The source's loop
  goes on ticking after it has sent on the completion channel; by then the
  coordinator has returned and the process exits, so later ticks are not
  modelled. A design that stops the poller after its first completion event
  describes the intended behaviour; the code itself does not stop.
