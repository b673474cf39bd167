# EBS snapshot cleanup, modelled in Dafny

This project models the decision logic of a Lambda handler (`handleRequest`
in `main.go`) that deletes orphaned EBS snapshots of an AWS account. The
handler lists the account's own snapshots, lists the running EC2 instances
and builds a set of their ids, then walks the snapshots in order. For each
snapshot it decides, first match wins:

1. the snapshot records no volume id (nil or empty): delete it;
2. DescribeVolumes for that id fails with API error code
   `InvalidVolume.NotFound`: delete it;
3. DescribeVolumes fails in any other way: log and skip it (no verdict);
4. DescribeVolumes returns at least one volume and the first one has no
   attachment: delete it;
5. otherwise keep it.

A failed delete or a failed lookup only skips that snapshot. The handler
returns an error when loading the AWS configuration fails (not modelled here)
or when one of the two listing calls fails, and in each case it does so
before any snapshot is handled.

Files and modules:

- `wrappers.dfy` (`Wrappers`): `Option` (a nil pointer) and `Result` (an SDK call's answer or error).
- `ec2.dfy` (`Ec2`): snapshots, volumes, attachments, instances and reservations,
  reduced to the fields the handler reads plus the volume and attached-instance ids,
  which the handler never reads. It also holds the DescribeVolumes answer
  (volumes, or an error with its API code when it has one) and the constant `"InvalidVolume.NotFound"`.
- `eligibility.dfy` (`Eligibility`): the pure per-snapshot decision `Classify`, an
  order-free definition of an orphaned snapshot `IsOrphaned`, and one lemma per decision case.
- `active_instances.dfy` (`ActiveInstances`): the nested loop that fills the
  running-instance set, proved to produce exactly the instance ids of the answer.
- `cleanup.dfy` (`Cleanup`): the handler as a method with a loop (`HandleRequest`).
  Beside it are the specification of a run (`Process`, built from the one-snapshot step `Record`),
  the reference list of eligible positions (`DeletableIndices`) and the lemmas relating them.

The remote calls are parameters. The snapshot and instance listings are
`Result` values. The DescribeVolumes answer and the DeleteSnapshot outcome for the
snapshot at position `i` of the listing are `describeVolumes(i)` and
`deleteSucceeds(i)`: total functions, so each call can answer independently of every other.
The run's effect is a `Summary`: the DeleteSnapshot calls issued, in order,
and counts of snapshots deleted, kept, skipped on a failed lookup and skipped
on a failed delete. The Go handler returns none of these. Deleted snapshots, failed
deletes and failed lookups each produce a log or print line, which the counts stand for.
The kept count is an addition of the model: a kept snapshot produces no output.

The code reads a single response page and handles snapshots one after another,
with no concurrency or cancellation; the model follows the code.

## Model

| member | source | states |
|---|---|---|
| `Eligibility.Classify` | main.go:62-108 | no verdict exactly when the snapshot has a volume id and the lookup fails with a code other than `InvalidVolume.NotFound`; a delete verdict exactly when the snapshot is orphaned (no volume id, volume not found, or first listed volume unattached), whatever the order of the checks |
| `Eligibility.NoVolumeRefIsDeleted` | main.go:62-71 | a snapshot whose volume id is nil or empty is deleted as `DeleteNoVolumeRef` for every possible lookup answer |
| `Eligibility.MissingVolumeIsDeleted` | main.go:79-91 | a snapshot whose lookup fails with `InvalidVolume.NotFound` is deleted as `DeleteVolumeMissing` |
| `Eligibility.BrokenLookupIsNotDeleted` | main.go:92-95 | any other lookup failure gives no verdict and no delete |
| `Eligibility.UnattachedVolumeIsDeleted` | main.go:99-107 | a lookup whose first volume has zero attachments gives `DeleteVolumeUnattached` |
| `Eligibility.KeptIffAttachedOrNoVolumeListed` | main.go:99 | the snapshot is kept exactly when the lookup succeeds and returns no volume or a first volume with an attachment |
| `ActiveInstances.BuildActiveSet` | main.go:50-55 | the set filled by the nested loop is exactly the set of instance ids over all reservations, and holds every instance's id |
| `ActiveInstances.ActiveSetNoLargerThanInstances` | main.go:50-55 | duplicates collapse: the set never has more ids than there are instance records |
| `Cleanup.Record` | main.go:62-108 | handling one snapshot accounts for exactly one more snapshot; a delete call is appended exactly when it is eligible; the deleted, delete-failure, lookup-failure and kept counts each grow exactly in their case |
| `Cleanup.Process` | main.go:58-110 | after the first n snapshots, the four counts add up to n, and there is one delete call per deleted or delete-failed snapshot |
| `Cleanup.DeletableIndices` | main.go:58-110 | the eligible positions among the first n: strictly increasing, each one eligible, and every eligible position present |
| `Cleanup.AttemptsAreDeletableInOrder` | main.go:58-110 | the k-th delete call is for the snapshot at the k-th eligible position, so calls follow listing order, one per eligible snapshot |
| `Cleanup.DeleteCountsMatchEligible` | main.go:64-107 | deleted plus failed deletes equals the number of eligible snapshots |
| `Cleanup.CountsMatchVerdicts` | main.go:58-110 | over a run, the lookup-failure count is the number of snapshots with no verdict and the kept count the number of `Keep` verdicts |
| `Cleanup.AttemptsIgnoreDeleteOutcomes` | main.go:64-107 | which delete calls are issued does not depend on any delete's outcome: a failed delete never stops later ones |
| `Cleanup.AttemptsComeFromListing` | main.go:58-110 | an id receives a delete call if and only if some listed snapshot with that id is eligible; no call for an id outside the listing |
| `Cleanup.AttemptsAreDistinct` | main.go:58-110 | with distinct snapshot ids, no id receives two delete calls |
| `Cleanup.HandleRequest` | main.go:17-113 | a failed snapshot listing returns its error with no delete call; a failed instance listing after a successful snapshot listing returns its error with no delete call; otherwise the handler returns no error and its calls and counts are those of `Process` over the whole listing, the same for every successful instance listing |
| `Cleanup.EndToEndExample` | main.go:58-110 | for a snapshot without volume, one whose volume is unattached and one whose volume is attached, the run deletes the first two and keeps the third |

## Left out

- Loading the AWS configuration and creating the EC2 client (main.go:20-26): SDK wiring; the configuration error return is not modelled.
- `lambda.Start` and `main` (main.go:115-117): runtime wiring.
- The network calls DescribeSnapshots, DescribeInstances, DescribeVolumes and DeleteSnapshot: they are parameters of `Cleanup.HandleRequest`.
- The `errors.As` / `smithy.APIError` inspection (main.go:81-82): a lookup error carries its API code, or none when it is not an API error.
- The text of the handler's error: `HandlerError` keeps which listing failed and the cause, not the formatted message.
- `log.Printf` and `fmt.Printf` output: logging only; the deleted, delete-failure and lookup-failure counts stand in for it.
- Dereferencing a nil snapshot id or instance id (a panic in Go): ids are plain strings here.
- The context argument and cancellation; pagination of the listings, since the code reads only the first page.
