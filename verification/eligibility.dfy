/**
 * The per-snapshot decision of the cleanup handler: whether a snapshot is
 * deleted, and for which reason, from its recorded volume id and the answer
 * DescribeVolumes gave for that id. The cases are tried in a fixed order and
 * the first that applies wins.
 */
module Eligibility {
  import opened Wrappers
  import opened Ec2

  /** Why a snapshot is deleted, or that it is kept. */
  datatype Verdict = Keep | DeleteNoVolumeRef | DeleteVolumeMissing | DeleteVolumeUnattached
  {
    predicate IsDeletion() { !Keep? }
  }

  /** The snapshot records a source volume: its volume id is neither nil nor empty. */
  predicate HasVolumeRef(snap: Snapshot)
  {
    snap.volumeId.Some? && snap.volumeId.value != ""
  }

  /** The lookup failed with the API error that says the volume does not exist. */
  predicate VolumeGone(resp: DescribeVolumesResponse)
  {
    resp.VolumesError? && resp.apiErrorCode == Some(VolumeNotFoundCode)
  }

  /** The lookup failed in any other way: throttling, permissions, network, a non-API error. */
  predicate LookupBroken(resp: DescribeVolumesResponse)
  {
    resp.VolumesError? && resp.apiErrorCode != Some(VolumeNotFoundCode)
  }

  /** The lookup returned a volume, and the first volume it returned has no attachment record. */
  predicate VolumeUnattached(resp: DescribeVolumesResponse)
  {
    resp.Volumes? && |resp.volumes| > 0 && |resp.volumes[0].attachments| == 0
  }

  /**
   * An orphaned snapshot, stated without any ordering of the cases: its
   * source volume was never recorded, no longer exists, or is attached to
   * nothing.
   */
  predicate IsOrphaned(snap: Snapshot, resp: DescribeVolumesResponse)
  {
    !HasVolumeRef(snap) || VolumeGone(resp) || VolumeUnattached(resp)
  }

  /**
   * The verdict for one snapshot, given the answer of the DescribeVolumes call
   * made for its volume id (the answer is not consulted when the snapshot has
   * no volume id, since no call is made then). None means that no verdict is
   * reached: the lookup failed with an error other than "not found".
   */
  function Classify(snap: Snapshot, resp: DescribeVolumesResponse): (r: Option<Verdict>)
    ensures r.None? <==> HasVolumeRef(snap) && LookupBroken(resp)
    ensures (r.Some? && r.value.IsDeletion()) <==> IsOrphaned(snap, resp)
  {
    if !HasVolumeRef(snap) then Some(DeleteNoVolumeRef)
    else match resp
      case VolumesError(code) =>
        if code == Some(VolumeNotFoundCode) then Some(DeleteVolumeMissing) else None
      case Volumes(volumes) =>
        if |volumes| > 0 && |volumes[0].attachments| == 0 then Some(DeleteVolumeUnattached)
        else Some(Keep)
  }

  /** The handler issues a DeleteSnapshot call for this snapshot. */
  predicate ShouldDelete(snap: Snapshot, resp: DescribeVolumesResponse)
  {
    var r := Classify(snap, resp); r.Some? && r.value.IsDeletion()
  }

  /** A snapshot without a volume id is deleted whatever any lookup would have answered. */
  lemma NoVolumeRefIsDeleted(snap: Snapshot)
    requires !HasVolumeRef(snap)
    ensures forall resp :: Classify(snap, resp) == Some(DeleteNoVolumeRef)
  {
  }

  /** A snapshot whose volume lookup reports "InvalidVolume.NotFound" is deleted as missing. */
  lemma MissingVolumeIsDeleted(snap: Snapshot, resp: DescribeVolumesResponse)
    requires HasVolumeRef(snap) && VolumeGone(resp)
    ensures Classify(snap, resp) == Some(DeleteVolumeMissing)
  {
  }

  /** Any other lookup failure gives no verdict, so the snapshot is never deleted. */
  lemma BrokenLookupIsNotDeleted(snap: Snapshot, resp: DescribeVolumesResponse)
    requires HasVolumeRef(snap) && LookupBroken(resp)
    ensures Classify(snap, resp).None? && !ShouldDelete(snap, resp)
  {
  }

  /** A volume that exists with no attachment gets its snapshot deleted, whoever runs elsewhere. */
  lemma UnattachedVolumeIsDeleted(snap: Snapshot, resp: DescribeVolumesResponse)
    requires HasVolumeRef(snap) && VolumeUnattached(resp)
    ensures Classify(snap, resp) == Some(DeleteVolumeUnattached)
  {
  }

  /**
   * The snapshot is kept exactly when the lookup succeeded and either
   * returned no volume or a first volume with at least one attachment
   * (whatever the state of the attached instance).
   */
  lemma KeptIffAttachedOrNoVolumeListed(snap: Snapshot, resp: DescribeVolumesResponse)
    ensures Classify(snap, resp) == Some(Keep) <==>
      HasVolumeRef(snap) && resp.Volumes? &&
      (|resp.volumes| == 0 || |resp.volumes[0].attachments| > 0)
  {
  }
}
