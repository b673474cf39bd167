/**
 * The cleanup handler: list the account's snapshots and the running
 * instances, build the running-instance set, then walk the snapshots in
 * order, issuing a DeleteSnapshot call for every snapshot the eligibility
 * rules mark for deletion. A failed lookup or a failed delete only skips
 * that snapshot; only a failed listing ends the run with an error.
 *
 * The remote answers are parameters: the DescribeVolumes answer and the
 * DeleteSnapshot outcome for the snapshot at position i of the listing are
 * describeVolumes(i) and deleteSucceeds(i).
 */
module Cleanup {
  import opened Wrappers
  import opened Ec2
  import opened Eligibility
  import opened ActiveInstances

  /** The error the handler returns when a listing call fails, carrying that call's error. */
  datatype HandlerError = DescribeSnapshotsFailed(cause: string) | DescribeInstancesFailed(cause: string)

  /**
   * What one run did: the DeleteSnapshot calls it issued, in order, and how
   * each snapshot ended (deleted, kept, skipped on a failed lookup, or
   * skipped on a failed delete).
   */
  datatype Summary = Summary(
    attempts: seq<string>,
    deleted: nat,
    kept: nat,
    lookupFailures: nat,
    deleteFailures: nat)

  const NoWork := Summary([], 0, 0, 0, 0)

  /**
   * The summary after handling one more snapshot: one DeleteSnapshot call
   * for it exactly when it is eligible, and one more count in the bucket of
   * how it ended.
   */
  function Record(s: Summary, snap: Snapshot, resp: DescribeVolumesResponse, deleteOk: bool): (s': Summary)
    ensures s'.deleted + s'.kept + s'.lookupFailures + s'.deleteFailures
            == s.deleted + s.kept + s.lookupFailures + s.deleteFailures + 1
    ensures s'.attempts == s.attempts + (if ShouldDelete(snap, resp) then [snap.snapshotId] else [])
    ensures s'.deleted == s.deleted + (if ShouldDelete(snap, resp) && deleteOk then 1 else 0)
    ensures s'.deleteFailures == s.deleteFailures + (if ShouldDelete(snap, resp) && !deleteOk then 1 else 0)
    ensures s'.lookupFailures == s.lookupFailures + (if Classify(snap, resp).None? then 1 else 0)
    ensures s'.kept == s.kept + (if Classify(snap, resp) == Some(Keep) then 1 else 0)
  {
    match Classify(snap, resp)
    case None => s.(lookupFailures := s.lookupFailures + 1)
    case Some(Keep) => s.(kept := s.kept + 1)
    case Some(_) =>
      if deleteOk then s.(attempts := s.attempts + [snap.snapshotId], deleted := s.deleted + 1)
      else s.(attempts := s.attempts + [snap.snapshotId], deleteFailures := s.deleteFailures + 1)
  }

  /** The summary after the first n snapshots of the listing. */
  function Process(snaps: seq<Snapshot>, describeVolumes: nat -> DescribeVolumesResponse,
                   deleteSucceeds: nat -> bool, n: nat): (s: Summary)
    requires n <= |snaps|
    ensures s.deleted + s.kept + s.lookupFailures + s.deleteFailures == n
    ensures |s.attempts| == s.deleted + s.deleteFailures
  {
    if n == 0 then NoWork
    else Record(Process(snaps, describeVolumes, deleteSucceeds, n - 1),
                snaps[n - 1], describeVolumes(n - 1), deleteSucceeds(n - 1))
  }

  /**
   * The positions, among the first n, of the snapshots that are eligible for
   * deletion: increasing, and holding every eligible position and no other.
   */
  function DeletableIndices(snaps: seq<Snapshot>, describeVolumes: nat -> DescribeVolumesResponse, n: nat): (ix: seq<nat>)
    requires n <= |snaps|
    ensures forall k :: 0 <= k < |ix| ==> ix[k] < n && ShouldDelete(snaps[ix[k]], describeVolumes(ix[k]))
    ensures forall k, l :: 0 <= k < l < |ix| ==> ix[k] < ix[l]
    ensures forall i :: 0 <= i < n && ShouldDelete(snaps[i], describeVolumes(i)) ==> i in ix
  {
    if n == 0 then []
    else DeletableIndices(snaps, describeVolumes, n - 1)
         + (if ShouldDelete(snaps[n - 1], describeVolumes(n - 1)) then [n - 1] else [])
  }

  /** ids[k] is the id of the snapshot at position ix[k], for every k. */
  predicate IdsAt(snaps: seq<Snapshot>, ids: seq<string>, ix: seq<nat>)
  {
    |ids| == |ix| && forall k :: 0 <= k < |ix| ==> ix[k] < |snaps| && ids[k] == snaps[ix[k]].snapshotId
  }

  lemma IdsAtAppend(snaps: seq<Snapshot>, ids: seq<string>, ix: seq<nat>, ids': seq<string>, ix': seq<nat>)
    requires IdsAt(snaps, ids, ix) && IdsAt(snaps, ids', ix')
    ensures IdsAt(snaps, ids + ids', ix + ix')
  {
    forall k | 0 <= k < |ix + ix'|
      ensures (ix + ix')[k] < |snaps| && (ids + ids')[k] == snaps[(ix + ix')[k]].snapshotId
    {
      if k >= |ix| {
        assert (ids + ids')[k] == ids'[k - |ix|] && (ix + ix')[k] == ix'[k - |ix|];
      }
    }
  }

  /**
   * The DeleteSnapshot calls are exactly those for the eligible snapshots,
   * in listing order, one call per eligible position.
   */
  lemma {:induction false} AttemptsAreDeletableInOrder(snaps: seq<Snapshot>, describeVolumes: nat -> DescribeVolumesResponse,
                                                     deleteSucceeds: nat -> bool, n: nat)
    requires n <= |snaps|
    ensures IdsAt(snaps, Process(snaps, describeVolumes, deleteSucceeds, n).attempts, DeletableIndices(snaps, describeVolumes, n))
  {
    if n == 0 {
      assert Process(snaps, describeVolumes, deleteSucceeds, n).attempts == [];
      assert DeletableIndices(snaps, describeVolumes, n) == [];
    } else {
      var prev, prevIx := Process(snaps, describeVolumes, deleteSucceeds, n - 1), DeletableIndices(snaps, describeVolumes, n - 1);
      AttemptsAreDeletableInOrder(snaps, describeVolumes, deleteSucceeds, n - 1);
      var eligible := ShouldDelete(snaps[n - 1], describeVolumes(n - 1));
      var ids: seq<string> := if eligible then [snaps[n - 1].snapshotId] else [];
      var ix: seq<nat> := if eligible then [n - 1] else [];
      assert IdsAt(snaps, ids, ix);
      IdsAtAppend(snaps, prev.attempts, prevIx, ids, ix);
      assert Process(snaps, describeVolumes, deleteSucceeds, n).attempts == prev.attempts + ids;
      assert DeletableIndices(snaps, describeVolumes, n) == prevIx + ix;
    }
  }

  /**
   * Every eligible snapshot ends as either deleted or a delete failure, so
   * the two counts add up to the number of eligible snapshots.
   */
  lemma DeleteCountsMatchEligible(snaps: seq<Snapshot>, describeVolumes: nat -> DescribeVolumesResponse,
                                  deleteSucceeds: nat -> bool, n: nat)
    requires n <= |snaps|
    ensures var s := Process(snaps, describeVolumes, deleteSucceeds, n);
      s.deleted + s.deleteFailures == |DeletableIndices(snaps, describeVolumes, n)|
  {
    AttemptsAreDeletableInOrder(snaps, describeVolumes, deleteSucceeds, n);
  }

  /** The positions below n at which p holds. */
  ghost function Positions(p: nat -> bool, n: nat): set<nat>
  {
    set i: nat | i < n && p(i)
  }

  lemma PositionsStep(p: nat -> bool, n: nat)
    requires n > 0
    ensures |Positions(p, n)| == |Positions(p, n - 1)| + (if p(n - 1) then 1 else 0)
  {
    var before, after := Positions(p, n - 1), Positions(p, n);
    var here: set<nat> := if p(n - 1) then {n - 1} else {};
    assert after == before + here;
    assert before * here == {};
  }

  /** The positions, among the first n, of the snapshots for which no verdict is reached. */
  ghost function NoVerdictPositions(snaps: seq<Snapshot>, describeVolumes: nat -> DescribeVolumesResponse, n: nat): set<nat>
  {
    Positions((i: nat) => i < |snaps| && Classify(snaps[i], describeVolumes(i)).None?, n)
  }

  /** The positions, among the first n, of the snapshots whose verdict is Keep. */
  ghost function KeptPositions(snaps: seq<Snapshot>, describeVolumes: nat -> DescribeVolumesResponse, n: nat): set<nat>
  {
    Positions((i: nat) => i < |snaps| && Classify(snaps[i], describeVolumes(i)) == Some(Keep), n)
  }

  /**
   * Over a run, the lookup-failure count is the number of snapshots without
   * a verdict and the kept count the number of Keep verdicts.
   */
  lemma {:induction false} CountsMatchVerdicts(snaps: seq<Snapshot>, describeVolumes: nat -> DescribeVolumesResponse,
                                             deleteSucceeds: nat -> bool, n: nat)
    requires n <= |snaps|
    ensures var s := Process(snaps, describeVolumes, deleteSucceeds, n);
      s.lookupFailures == |NoVerdictPositions(snaps, describeVolumes, n)| &&
      s.kept == |KeptPositions(snaps, describeVolumes, n)|
  {
    if n == 0 {
      assert NoVerdictPositions(snaps, describeVolumes, n) == {};
      assert KeptPositions(snaps, describeVolumes, n) == {};
    } else {
      CountsMatchVerdicts(snaps, describeVolumes, deleteSucceeds, n - 1);
      PositionsStep((i: nat) => i < |snaps| && Classify(snaps[i], describeVolumes(i)).None?, n);
      PositionsStep((i: nat) => i < |snaps| && Classify(snaps[i], describeVolumes(i)) == Some(Keep), n);
    }
  }

  /**
   * Isolation: which DeleteSnapshot calls are issued does not depend on how
   * any earlier delete turned out.
   */
  lemma {:induction false} AttemptsIgnoreDeleteOutcomes(snaps: seq<Snapshot>, describeVolumes: nat -> DescribeVolumesResponse,
                                                      ok1: nat -> bool, ok2: nat -> bool, n: nat)
    requires n <= |snaps|
    ensures Process(snaps, describeVolumes, ok1, n).attempts == Process(snaps, describeVolumes, ok2, n).attempts
  {
    if n > 0 {
      AttemptsIgnoreDeleteOutcomes(snaps, describeVolumes, ok1, ok2, n - 1);
    }
  }

  /** A DeleteSnapshot call is only ever issued for an id of the listing, and only for an eligible snapshot. */
  lemma AttemptsComeFromListing(snaps: seq<Snapshot>, describeVolumes: nat -> DescribeVolumesResponse,
                                deleteSucceeds: nat -> bool, n: nat, id: string)
    requires n <= |snaps|
    ensures id in Process(snaps, describeVolumes, deleteSucceeds, n).attempts <==>
      exists i :: 0 <= i < n && snaps[i].snapshotId == id && ShouldDelete(snaps[i], describeVolumes(i))
  {
    var s, ix := Process(snaps, describeVolumes, deleteSucceeds, n), DeletableIndices(snaps, describeVolumes, n);
    AttemptsAreDeletableInOrder(snaps, describeVolumes, deleteSucceeds, n);
    assert IdsAt(snaps, s.attempts, ix);
    if id in s.attempts {
      var k :| 0 <= k < |s.attempts| && s.attempts[k] == id;
      assert snaps[ix[k]].snapshotId == id;
    }
    if i :| 0 <= i < n && snaps[i].snapshotId == id && ShouldDelete(snaps[i], describeVolumes(i)) {
      var k :| 0 <= k < |ix| && ix[k] == i;
      assert s.attempts[k] == id;
    }
  }

  /** With distinct snapshot ids in the listing, no snapshot is the subject of two DeleteSnapshot calls. */
  lemma AttemptsAreDistinct(snaps: seq<Snapshot>, describeVolumes: nat -> DescribeVolumesResponse,
                            deleteSucceeds: nat -> bool, n: nat)
    requires n <= |snaps|
    requires forall i, j :: 0 <= i < j < |snaps| ==> snaps[i].snapshotId != snaps[j].snapshotId
    ensures var a := Process(snaps, describeVolumes, deleteSucceeds, n).attempts;
      forall k, l :: 0 <= k < l < |a| ==> a[k] != a[l]
  {
    AttemptsAreDeletableInOrder(snaps, describeVolumes, deleteSucceeds, n);
  }

  /**
   * The handler. Lists the snapshots, then the running instances, returning
   * the listing's error before any snapshot is handled if either call fails;
   * otherwise builds the running-instance set and handles every snapshot in
   * order, and returns no error whatever happened to individual snapshots.
   * The running-instance set is never consulted, so the outcome is the same
   * for every successful instance listing.
   */
  method HandleRequest(snapshotsResp: Result<seq<Snapshot>, string>,
                       instancesResp: Result<seq<Reservation>, string>,
                       describeVolumes: nat -> DescribeVolumesResponse,
                       deleteSucceeds: nat -> bool)
    returns (err: Option<HandlerError>, summary: Summary)
    ensures snapshotsResp.Failure? ==>
      err == Some(DescribeSnapshotsFailed(snapshotsResp.error)) && summary == NoWork
    ensures snapshotsResp.Success? && instancesResp.Failure? ==>
      err == Some(DescribeInstancesFailed(instancesResp.error)) && summary == NoWork
    ensures snapshotsResp.Success? && instancesResp.Success? ==>
      err == None && summary == Process(snapshotsResp.value, describeVolumes, deleteSucceeds, |snapshotsResp.value|)
  {
    if snapshotsResp.Failure? {
      return Some(DescribeSnapshotsFailed(snapshotsResp.error)), NoWork;
    }
    if instancesResp.Failure? {
      return Some(DescribeInstancesFailed(instancesResp.error)), NoWork;
    }
    var activeInstanceIds := BuildActiveSet(instancesResp.value);

    var snapshots := snapshotsResp.value;
    var attempts: seq<string> := [];
    var deleted, kept, lookupFailures, deleteFailures := 0, 0, 0, 0;
    for i := 0 to |snapshots|
      invariant Summary(attempts, deleted, kept, lookupFailures, deleteFailures)
                == Process(snapshots, describeVolumes, deleteSucceeds, i)
    {
      var snapshot := snapshots[i];
      var snapshotId := snapshot.snapshotId;
      if snapshot.volumeId.None? || snapshot.volumeId.value == "" {
        attempts := attempts + [snapshotId];
        if !deleteSucceeds(i) {
          deleteFailures := deleteFailures + 1;
          continue;
        }
        deleted := deleted + 1;
      } else {
        var volumeResp := describeVolumes(i);
        if volumeResp.VolumesError? {
          if volumeResp.apiErrorCode == Some(VolumeNotFoundCode) {
            attempts := attempts + [snapshotId];
            if !deleteSucceeds(i) {
              deleteFailures := deleteFailures + 1;
              continue;
            }
            deleted := deleted + 1;
          } else {
            lookupFailures := lookupFailures + 1;
          }
          continue;
        }
        if |volumeResp.volumes| > 0 && |volumeResp.volumes[0].attachments| == 0 {
          attempts := attempts + [snapshotId];
          if !deleteSucceeds(i) {
            deleteFailures := deleteFailures + 1;
            continue;
          }
          deleted := deleted + 1;
        } else {
          kept := kept + 1;
        }
      }
    }
    err, summary := None, Summary(attempts, deleted, kept, lookupFailures, deleteFailures);
  }

  /**
   * A whole run on a three-snapshot inventory: one snapshot with no volume
   * id, one whose volume exists unattached, one whose volume is attached to
   * a stopped instance. The first two are deleted and the third is kept.
   */
  lemma EndToEndExample()
    ensures var snaps := [Snapshot("snap-1", None), Snapshot("snap-3", Some("vol-5")), Snapshot("snap-4", Some("vol-6"))];
      var describe := (i: nat) =>
        if i == 1 then Volumes([Volume("vol-5", [])])
        else Volumes([Volume("vol-6", [Attachment("i-1")])]);
      Process(snaps, describe, _ => true, 3) == Summary(["snap-1", "snap-3"], 2, 1, 0, 0)
  {
  }
}
