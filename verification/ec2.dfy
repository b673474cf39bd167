/**
 * The EC2 entities the cleanup handler reads, reduced to the fields it uses
 * plus the ids that name volumes and attached instances (which the handler
 * never reads), and the answers of the remote calls it makes.
 */
module Ec2 {
  import opened Wrappers

  /** The API error code DescribeVolumes reports for a volume id that no longer resolves. */
  const VolumeNotFoundCode: string := "InvalidVolume.NotFound"

  /** An EBS snapshot: its id and the id of the volume it was taken from, which may be nil or empty. */
  datatype Snapshot = Snapshot(snapshotId: string, volumeId: Option<string>)

  /** The record that a volume is attached to an instance (in whatever state that instance is). */
  datatype Attachment = Attachment(instanceId: string)

  datatype Volume = Volume(volumeId: string, attachments: seq<Attachment>)

  datatype Instance = Instance(instanceId: string)

  /** One reservation of the DescribeInstances answer, holding its instances. */
  datatype Reservation = Reservation(instances: seq<Instance>)

  /**
   * The answer of one DescribeVolumes call: the list of volumes it returned, or
   * an error. apiErrorCode is the error's code when the error is an API error,
   * and None when it is some other failure (network, context, ...).
   */
  datatype DescribeVolumesResponse =
    | Volumes(volumes: seq<Volume>)
    | VolumesError(apiErrorCode: Option<string>)
}
