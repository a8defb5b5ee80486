# PowerFlex CSI driver: a verified model

This project models the parts of the CSI driver for Dell PowerFlex in which a mistake loses data or
strands a volume, and proves what they keep in every run: a node's mount table, the hosts a block volume
is mapped to, the access lists of an NFS export, expansion of replicated volumes, the listing caches, the
index of legacy volume IDs, volume sizes, quotas, group snapshots, volume handles, array probing,
deletion, and inline ephemeral volumes.

## How the model is built

Each component that changes state has functions that say what an operation does to it, a class whose methods
do it step by step as the Go code does and are proved equal to those functions, and theorems about the functions.
Every call into the operating system, the array or Kubernetes has its outcome in an environment value
(`PublishEnv`, `DeleteEnv`, ...), which the theorems leave open; so "in every run" includes every way in
which those calls can fail. Lemmas whose names end in `Means` or `SucceedsIff` say what a caller learns from an
answer: exactly when each status is given and what the state is then, with modes, rows, lists and fields
spelled out instead of the model's own functions. Requests on one volume are served one after the other
(`provider/provider.go:41` asks for that), so each request is one step.

| file | component |
|---|---|
| `MountTable`, `NodeMounts`, `NfsMount` | the mount table, publish and unpublish on a node, and the class that works on it |
| `MountFacts`, `MountRuns`, `MountTheorems`, `MountPods`, `MountRoundTrip`, `MountSuccess`, `MountAnswers` | what holds in runs, what the pod test is worth, round trips, when calls succeed, what each answer means |
| `HostMapping`, `HostMappingTheorems`, `Decimal` | controller publish, unpublish, QoS limits |
| `NfsExport`, `NfsExportTheorems` | NFS access lists |
| `Expand`, `ExpandTheorems`, `VolumeSize` | expansion through replication pairs; sizes |
| `VolumeLife`, `VolumeLifeTheorems`, `VolumeLifeAnswers`, `VolumeController`, `Listing`, `ListingRaces` | creation, deletion, group deletion; paged listing, its caches, and listings that overlap with changes |
| `PrefixIndex`, `VolumeId`, `Probe` | legacy IDs, volume handles, arrays and their aliases |
| `GroupSnapshot`, `GroupSnapshotTheorems`, `Quota`, `Ephemeral`, `EphemeralTheorems`, `EphemeralRuns`, `EphemeralNames`, `EphemeralAnswers`, `EphemeralService` | the rest |

What the model takes for granted about code it does not see:

- The mount table records a device by the path its links lead to. A bind mount of a device node appears
  as a row of `devtmpfs` whose source is the device; a bind mount of a private mount has the same device.
  Unmounting a path takes away the row mounted there last. A call that fails changes nothing.
- Names and IDs of volumes are unique on a system; looking a volume up by name finds it whatever its
  kind; a removal removes one volume; a size is set in whole GiB; bandwidth limits are kept in whole Mbps.
- A run on a node serves a fixed assignment of devices to volumes and of target paths to volumes and exports,
  and no target is in the private directory (`MountRuns.PlainWorld`). Only the theorems that a private mount
  outlives its targets also need each target to be a pod path and alone of its volume in its pod
  (`MountRuns.ValidWorld`); `MountPods` drops that and gives the exact condition instead.
- NFS access lists do not repeat a host when it is added, and removal is set difference.
- Volume IDs on an array have at least three characters (the code slices them). A write to a lock file that
  fails leaves the file empty. A volume whose removal is under way counts as missing.

## Where the code falls short of the obvious claim

Each of these has a theorem that gives the exact condition under which the claim holds, and a lemma at an
input where it fails.

- A publish that fails after mapping a new host leaves it mapped when the QoS limits are not numbers or
  the volume cannot be read again (`FailedPublishRestoresIff`, `BadLimitsLeaveHostMapped`).
- Repeating an NFS export that added the external host fails (`ReexportSucceedsIff`, `ExternalHostBlocksReexport`).
- A request near the top of 64 bits passes any size limit (`LimitRespectedIff`, `HugeRequestIgnoresLimit`).
- A volume that is large enough hides a replica that is not (`PairEndsEqualIff`): a retry after the remote
  expansion failed reports success and leaves the replica small (`RetryLeavesReplicaSmall`).
- A group delete does not notice that the listing of the group failed, and then deletes one snapshot of a
  group that is in use (`GroupInUseIsKeptIff`, `UnlistedGroupLosesSnapshot`).
- A group snapshot request counts as served when the last snapshot's group has the right number of
  members, whether or not they are the right ones (`ServedByAccident`, `AccidentHappens`).
- Failed look-ups of a group snapshot request are taken for missing snapshots, so that a request carried out
  is made again (`VerdictIsTrueIff`, `RepeatIsServedIff`).
- An ephemeral publish that fails before its lock file is written leaves the volume on the array
  (`FailedPublishLeavesNothingIff`, `LostVolume`); a lock file left empty blocks every unpublish of its handle until
  a publish of the handle writes it (`EmptyLockStaysIff`, `EmptyLockBlocks`).
- Repeating an ephemeral publish that left its host mapped fails unless the limits are written as the array
  hands them back (`RepeatSucceedsIff`, `MappedRepeatIff`, `OddBandwidthBlocksRepeat`).
- An ephemeral publish of a name in use takes the volume over, and its unpublish, or the roll-back of a failed
  publish, deletes it (`RoundTripRestoresIff`, `FailedPublishDeletesIff`, `TakenVolumeIsDeleted`).
- A listing that overlaps with a change caches a list that is stale already (`ListingRaces.CachesStayCurrentIff`,
  `StaleAfterClear`).
- An ephemeral unpublish that does not see the device leaves the private mount of a filesystem
  (`EphemeralTheorems.UnpublishUndoesPublish`, `UnseenDeviceLeavesPrivateMount`).
- A first publish fails if its private directory is there and nothing at all is mounted (`FirstPublish`,
  `ExistingDirectoryFails`).
- A later page of a listing consists of nil slots once another system was listed (`LaterPagesAreCurrentIff`,
  `NilSlotsHappen`), and the legacy-ID check lists other systems.
- The legacy-ID index misses a volume whose key was never that of the first volume listed at a registration
  (`RunAnswersAllIff`, `IndexMissesSecondPrefix`), and all volumes of a system that was empty then
  (`IndexMissesLateVolume`).
- A copy request hands out any volume of its name in the pool (`CopyIsOfSourceIff`, `CopyReturnsUnrelated`).
- A quota from a negative percentage is accepted (`CreatedQuotaIsSoundIff`, `NegativePercentage`), and expansion
  lowers the soft limit's share unless the new size is a multiple of the old hard limit (`ScaleLowersRatio`,
  `SoftLimitStays`).
- The aliases of an array that reports no name dangle (`ProbeGroundsAliasesIff`, `NamelessArrayDangles`).
- Two targets of one volume in one pod share the fate of its private mount
  (`PrivateMountSurvivesIffPodsDiffer`, `RunKeepsIff`, `SecondTargetOfPodLosesMount`).
- A creation, copy or snapshot that fails half way leaves a cache stale (`EventKeepsCurrentIff`,
  `VolumeLifeTheorems.CachesStayCurrentIff`, `HalfDoneCreateGoesStale`).

## Model

| member | source | states |
|---|---|---|
| `NodeMounts.NodeService.GetDevMounts` | service/mount.go:880-896 | the loop selects the rows of a device |
| `NodeMounts.NodeService.CleanupPrivateTarget` | service/mount.go:1047-1078 | the table after clean-up, and exactly when it succeeds |
| `NodeMounts.NodeService.BindBlock` | service/mount.go:1081-1105 | table and status after publishing a raw block device |
| `NodeMounts.NodeService.FindPrivateMount` | service/mount.go:196-207 | whether the private path is mounted, and whether by another device |
| `NodeMounts.NodeService.ScanDeviceRows` | service/mount.go:234-256 | the first conflict among a device's rows, or whether the private mount is there |
| `NodeMounts.NodeService.PrivateMount` | service/mount.go:159-261 | table and status after making or checking the private mount |
| `NodeMounts.NodeService.BindToTarget` | service/mount.go:264-328 | table and status after binding the private mount to the target |
| `NodeMounts.NodeService.PublishVolume` | service/mount.go:83-329 | table and status of a whole publish, for every outcome of its calls |
| `NodeMounts.NodeService.UnmountPrivMount` | service/mount.go:854-878 | unmounts every row at the private path until one unmount fails |
| `NodeMounts.NodeService.UnpublishVolume` | service/mount.go:699-784 | table and status of a whole unpublish, for every outcome of its calls |
| `NfsMount.NfsNode.PublishVolume` | service/mount.go:436-544 | table and status of an NFS publish, with its bounded retries |
| `NfsMount.NfsNode.UnpublishVolume` | service/mount.go:546-590 | unmounts the target exactly if a row of the export is there |
| `MountRuns.OwnRows` | service/mount.go:740-891 | the two device tests of the code select the same rows, those at the volume's own paths |
| `MountRuns.CleanupKeeps` | service/mount.go:1047-1078 | clean-up never takes the private mount from under a target, and keeps rows in place |
| `MountRuns.EnsurePrivateKeeps` | service/mount.go:159-261 | the first half of a publish keeps the invariant and makes the private mount only if the device was unmounted |
| `MountRuns.BindTargetKeeps` | service/mount.go:263-328 | binding keeps the invariant and adds the target row, changes nothing, or on failure takes away a private mount no target uses |
| `MountRuns.MountBlockKeeps` | service/mount.go:1081-1105 | a raw block publish keeps the invariant; an exclusive one that adds a row found no target of the volume |
| `MountRuns.PublishKeeps` | service/mount.go:83-329 | whatever the pods, any publish keeps rows in place and the invariant if it held, adds only its own rows, takes away at most rows at its private path, and on success its target is mounted; an exclusive one that adds a target found no other |
| `MountFacts.PublishElsewhere` | service/mount.go:83-329 | on any table and whatever fails, a publish leaves the rows at other paths than its target and private path alone, in their order |
| `MountFacts.UnpublishElsewhere` | service/mount.go:699-784 | so does an unpublish |
| `MountTheorems.PlainFlags` | service/mount.go:735-758 | without assuming anything about pods, the third flag says that a target of the volume in another known pod exists |
| `MountTheorems.UnpublishFlags` | service/mount.go:735-758 | if targets of a volume are in pods of their own, the flags say that target, private mount and another target of the volume exist |
| `MountTheorems.PlainResult` | service/mount.go:763-783 | whatever the pods, the table after an unpublish: without target and private mount exactly if it succeeds and no target of the volume is in another known pod |
| `MountTheorems.UnpublishSucceedsIff` | service/mount.go:699-784 | whatever the pods, an unpublish succeeds exactly when its reads work, and its unmounts as far as there is something to unmount |
| `MountTheorems.UnpublishDrops` | service/mount.go:763-783 | whatever the pods, an unpublish adds no row, takes away at most its target and the private mount, and keeps rows in place |
| `MountTheorems.UnpublishResult` | service/mount.go:763-783 | the three ways an unpublish ends, by which rows are gone and whether another target is mounted |
| `MountTheorems.UnpublishKeeps` | service/mount.go:763-783 | any unpublish keeps the invariant and other rows; after success the target is gone and a private mount left over is in use |
| `MountTheorems.PublishNfsKeeps` | service/mount.go:496-543 | an NFS publish adds at most one row at a free target; with a single-node mode the export was mounted nowhere |
| `MountTheorems.StepPlaces` | service/mount.go:83-784 | whatever the pods, each step keeps every row where it belongs and every path of the driver mounted once at most |
| `MountTheorems.RunPlaces` | service/mount.go:83-784 | so does every run |
| `MountTheorems.StepKeeps` | service/mount.go:83-784 | each step, failed or not, keeps the invariant |
| `MountTheorems.StepAdds` | service/mount.go:83-329 | whatever the pods, a new target row comes from a publish of that volume to that path, and from an exclusive one only if no other target was there |
| `MountTheorems.RunKeeps` | service/mount.go:83-784 | the invariant holds in every run of block, filesystem, NFS and detach steps |
| `MountTheorems.FreshNode` | service/mount.go:159-168 | a node without mounts of the driver satisfies the invariant |
| `MountTheorems.PrivateMountOutlivesTargets` | service/mount.go:735-781 | in every run a filesystem target has its private mount beside it |
| `MountTheorems.PrivateMountExactlyWhileUsed` | service/mount.go:695-698 | for a volume published only as a filesystem: after any successful publish or unpublish of it, its private mount exists exactly when a target does, whatever failed before |
| `MountTheorems.SingleAccessMeansOneTarget` | service/mount.go:1013-1026 | whatever the pods and the target paths: with multi-pod access off, in every run whose publishes of a volume ask for SINGLE_NODE_WRITER, SINGLE_NODE_READER_ONLY or SINGLE_NODE_SINGLE_WRITER, the volume never has two targets, block and filesystem mixed |
| `MountTheorems.SingleNodeMeansOneExportPath` | service/mount.go:511-517 | whatever the pods, if every NFS publish of an export is single-node, no run mounts it at two paths |
| `MountFacts.PodMeans` | service/mount.go:840-852 | a pod is found in a path exactly if the path is the directory `/var/lib/kubelet/pods/`, the pod, a slash and anything, and the pod is a UUID without a slash |
| `MountAnswers.OtherPodKeepsMounts` | service/mount.go:735-781 | on any table, for two such paths with different UUIDs: a successful unpublish of the one takes its target away and leaves the other target and the private mount |
| `MountAnswers.SecondTargetSucceedsIff` | service/mount.go:1013-1026 | with calls working and another target mounted, as a filesystem that suits the request or raw: a publish succeeds exactly if multi-pod access is on or the mode is none of the three single-access modes, and otherwise changes nothing |
| `MountAnswers.CapabilityMeans` | service/mount.go:959-1011 | which modes a filesystem publish refuses and how, and which option the mounts have to carry for it, by mode, read-only flag and multi-pod access |
| `MountAnswers.SharedPublishMeans` | service/mount.go:232-328 | a publish of a filesystem volume that has its private mount: succeeds exactly by mode, recorded options and other targets; what each error means; the row it adds, field by field |
| `MountAnswers.FirstPublishMeans` | service/mount.go:159-328 | a publish of a filesystem volume that is mounted nowhere: the answer for each mode, and the private and target rows it adds, field by field |
| `MountAnswers.RawInUseMeans` | service/mount.go:232-261 | a filesystem publish of a volume in use as a raw block device, or that cannot read the mounts, fails and changes nothing; its answers |
| `MountAnswers.BlockPublishMeans` | service/mount.go:1081-1105 | a raw block publish: when it succeeds, by mode and by the first mount of the device, and the row it adds, field by field |
| `MountAnswers.CleanupMeans` | service/mount.go:1047-1078 | clean-up takes a private mount back that is the only mount of its device, exactly if both of its calls work |
| `MountAnswers.CleanupSpares` | service/mount.go:1047-1078 | with any other mount of the device, clean-up leaves everything alone |
| `MountAnswers.FailedFirstPublish` | service/mount.go:159-328 | a first publish whose binding fails leaves the table as before exactly if the clean-up works, and the private mount otherwise |
| `MountAnswers.UnpublishMeans` | service/mount.go:699-784 | what each answer of an unpublish means, and what a failed one leaves mounted |
| `MountAnswers.NfsPublishFinds` | service/mount.go:496-517 | an NFS publish of an export that is mounted changes nothing; the first row that decides gives the answer, by mode, path and option |
| `MountAnswers.NfsPublishMounts` | service/mount.go:519-543 | an NFS publish that no row decides about mounts the export, with the options of the first attempt that is not worth a retry, out of six |
| `MountAnswers.NfsUnpublishMeans` | service/mount.go:546-590 | an NFS unpublish succeeds exactly if the read works and an unmount that is needed; then nothing of the export is mounted at the target and all other rows stay |
| `MountPods.PrivateMountSurvivesIffPodsDiffer` | service/mount.go:735-781 | on any table, the private mount outlives a successful unpublish exactly when another row of the device lies in the directory of one pod and the target in that of a different one |
| `MountPods.SecondTargetOfPodLosesMount` | service/mount.go:749-755 | two targets of one pod: unpublishing one succeeds, leaves the other mounted and takes the private mount |
| `MountPods.UnpublishKeepsIff` | service/mount.go:735-781 | without the rule about pods, a successful unpublish keeps the invariant exactly when no filesystem target stays or a target is in another known pod; one that fails always does |
| `MountPods.StepKeepsIff` | service/mount.go:83-784 | without the rule about pods, every other step keeps the invariant, and an unpublish exactly under that condition |
| `MountPods.RunKeepsIff` | service/mount.go:83-784 | without the rule about pods, the invariant holds after every step of a run exactly when every unpublish in it whose calls go through meets that condition |
| `MountRoundTrip.UnpublishUndoesPublish` | service/mount.go:263-328 | whatever the pods, after both succeed on a free target, the table is back row for row exactly when the volume had no private mount or has a target in another known pod; otherwise the private mount is gone |
| `MountRoundTrip.UnpublishTakesOrphans` | service/mount.go:263-328 | if targets have pods of their own, that is exactly when there was no orphaned private mount |
| `MountRoundTrip.PublishedHasPrivate` | service/mount.go:159-328 | a volume published as a filesystem has its private mount |
| `MountRoundTrip.PublishOverMounts` | service/mount.go:231-291 | publishing what is mounted changes nothing and succeeds exactly when both mounts carry the wanted option |
| `MountRoundTrip.RepublishFilesystem` | service/mount.go:273-291 | with its calls working, a repeated publish changes nothing and succeeds exactly when both recorded mounts carry the wanted option |
| `MountRoundTrip.RepublishBlock` | service/mount.go:1088-1091 | a repeated block publish succeeds and changes nothing, on any table |
| `MountSuccess.SharedPublish` | service/mount.go:231-291 | with its calls working, a publish over a private mount succeeds exactly when both mounts carry the wanted option and an exclusive request finds no other target |
| `MountSuccess.FirstPublish` | service/mount.go:166-229 | with all calls working and no private mount, a publish succeeds exactly when the mode can be mounted, the volume has no target, and the private directory is new or something is mounted on the node |
| `MountSuccess.ExistingDirectoryFails` | service/mount.go:177-194 | on a node without mounts, a private directory that exists makes a first publish fail |
| `MountSuccess.NewFilesystemPublish` | service/mount.go:83-329 | with all calls working, a whole publish of a volume mounted nowhere succeeds exactly for the modes a private mount allows, with the same exception |
| `MountSuccess.NewBlockPublish` | service/mount.go:1081-1105 | with its calls working, a whole publish of a raw block volume mounted nowhere succeeds for every known mode |
| `MountSuccess.NewPublish` | service/mount.go:83-329 | the two together, for any capability, one without an access type or mode included |
| `MountSuccess.BlockRefusedIff` | service/mount.go:1088-1096 | the block scan refuses exactly when the request is exclusive and the device's first row is elsewhere |
| `MountSuccess.BlockPublishSucceedsIff` | service/mount.go:1088-1104 | with its three calls working, a block publish succeeds exactly when it is not exclusive, or the device's first row is its target or missing |
| `MountSuccess.UnpublishSucceeds` | service/mount.go:763-783 | with all calls working, unpublish succeeds and the target is gone |
| `VolumeSize.FloatIsExact` | service/controller.go:1156-1163 | for up to 2^53 KiB, which covers every 64-bit byte count, the floating-point ceiling equals the integer one, for any rounding that keeps what a double can hold |
| `VolumeSize.RoundedIsLeast` | service/controller.go:1156-1172 | the rounded size is the least multiple covering the request and stays within 2^53 KiB |
| `VolumeSize.SizeInBytes` | service/controller.go:1174-1181 | in bytes it fits 64 bits up to the largest size, and beyond is exactly 2^63, which wraps |
| `VolumeSize.ValidSize` | service/controller.go:1133-1185 | the result is the least positive multiple of 8 GiB covering the request; refused exactly for negative arguments, or beyond a limit when the size fits 64 bits |
| `VolumeSize.SizeIsLeastEights` | service/controller.go:1133-1185 | the size in bytes: the least multiple of 8 GiB for the request less 1023 bytes, 16 GiB for a request of 0; refused exactly if it exceeds a limit and fits into 64 bits |
| `VolumeSize.EightsExist` | service/controller.go:1133-1185 | every request that is not negative has such a multiple |
| `VolumeSize.LimitRespectedIff` | service/controller.go:1174-1181 | an accepted size respects the limit exactly when it fits into 64 bits; up to 2^63 - 2^33 bytes it does |
| `VolumeSize.HugeRequestIgnoresLimit` | service/controller.go:1174-1181 | the largest request passes every limit |
| `VolumeSize.SizeIsMonotone` | service/controller.go:1133-1185 | a larger positive request gets no smaller volume |
| `VolumeSize.SizeIsIdempotent` | service/controller.go:1133-1185 | an accepted size that fits 64 bits is kept when asked for again |
| `Expand.Controller.ControllerExpandVolume` | service/controller.go:3419-3499 | volumes and outcome of an expansion; terminates because fewer volumes are below the wanted size |
| `Expand.Controller.ExpandReplicationPair` | service/service.go:2015-2062 | volumes and outcome of expanding the remote volume, with the polling loop |
| `Expand.ResizeLeavesFewerSmaller` | service/controller.go:3473-3480 | each resize leaves strictly fewer volumes below the wanted size |
| `Expand.ResizeIsExact` | service/controller.go:3473-3480 | a checked size survives the conversion to whole GiB |
| `ExpandTheorems.ExpandGrows` | service/controller.go:3435-3498 | no volume appears, disappears or shrinks; one that grows gets exactly the wanted size |
| `ExpandTheorems.ExpandPairGrows` | service/service.go:2015-2062 | the same for the remote half of the recursion |
| `ExpandTheorems.DoneReaches` | service/controller.go:3457-3498 | after success a block volume has the larger of its old and the wanted size |
| `ExpandTheorems.ExpandSucceedsIff` | service/controller.go:3297-3498 | a block expansion succeeds exactly if its calls work and, for a replicated volume that has to grow, pair and group are found and the group is replicated from the remote side or the remote expansion succeeds and a re-read works; the reply is 0 or the wanted size; what changes |
| `ExpandTheorems.ReadsMean` | service/service.go:2048-2059 | the polling loop does not crash exactly if its first read works, or all 101 while the size does not arrive |
| `ExpandTheorems.FirstReadSuffices` | service/service.go:2015-2062 | the remote half succeeds or crashes exactly by pair, group, direction, the remote outcome and the first re-read |
| `ExpandTheorems.PairMeans` | service/service.go:2000-2036 | the pair is the first with the volume at its local end, the group the one it names, and the remote handle is made of both |
| `ExpandTheorems.HandleNames` | service/service.go:1355-1465 | the system and volume a handle names, by alias or by default |
| `ExpandTheorems.PairEndsEqualIff` | service/service.go:2029-2061 | after success a pair ends equal exactly when the volume grew and the replica was not ahead of the wanted size, or they were equal before |
| `ExpandTheorems.RetryLeavesReplicaSmall` | service/service.go:2029-2061 | if the remote expansion fails, the same request again reports success, changes nothing and leaves the replica smaller |
| `ExpandTheorems.RunNeverShrinks` | service/controller.go:3435-3498 | in every run no volume shrinks and every changed size was asked for |
| `ExpandTheorems.CheckedSizeIsWanted` | service/controller.go:3446-3449 | the size check yields what expansion relies on |
| `HostMapping.MappedVolume.ControllerPublishVolume` | service/publisher.go:111-174 | mappings and status of a publish, for SDC and NVMe hosts |
| `HostMapping.MappedVolume.SetQoSIfNeeded` | service/publisher.go:209-223 | limits of the new mapping, or its roll-back |
| `HostMapping.MappedVolume.ControllerUnpublishVolume` | service/controller.go:1765-1839 | removes the node's mapping exactly if the loop finds one |
| `HostMappingTheorems.StepAdds` | service/publisher.go:124-164 | a second host is added only for multi-node readers or block multi-node writers |
| `HostMappingTheorems.UnsharedMeansOneHost` | service/publisher.go:52-93 | in every run without such requests at most one host is mapped, SDC and NVMe mixed |
| `HostMappingTheorems.UnpublishUndoesPublish` | service/controller.go:1789-1838 | after a successful publish of a host that was not mapped, an unpublish whose calls work succeeds and restores the mappings exactly |
| `HostMappingTheorems.FailedPublishRestoresIff` | service/controller.go:1606-1643 | a failed publish of a host that was not mapped leaves the mappings alone exactly if it failed before mapping, or the limits were refused by the array and rolled back |
| `HostMappingTheorems.BadLimitsLeaveHostMapped` | service/publisher.go:209-223 | a bandwidth that is no number is refused and leaves the host mapped |
| `HostMappingTheorems.BandwidthSurvivesIff` | service/publisher.go:184-188 | a bandwidth reads back as written exactly for canonical multiples of 1024 |
| `HostMappingTheorems.RepublishSucceedsIff` | service/publisher.go:176-195 | a repeated publish changes nothing and succeeds exactly for canonical limits with the bandwidth a multiple of 1024 |
| `HostMappingTheorems.UnpublishIsIdempotent` | service/controller.go:1808-1811 | a second unpublish of the same host succeeds and changes nothing, whether or not its unmap call would work |
| `HostMappingTheorems.PublishSucceedsIff` | service/controller.go:1646-1691 | with all calls working, which requests succeed, and the mapping they end with |
| `HostMappingTheorems.NewHostMeans` | service/publisher.go:111-223 | a publish to a host that is not mapped: what each answer means by mode, limits and failing calls; the mappings afterwards, the new one field by field |
| `HostMappingTheorems.KnownHostMeans` | service/publisher.go:124-195 | a publish to a mapped host changes nothing and succeeds exactly if the limits are written as those of the first matching mapping |
| `HostMappingTheorems.LimitsMeans` | service/publisher.go:209-223 | setting limits succeeds exactly if they are numbers and its calls work, and changes the given limits of the mapping made last alone |
| `HostMappingTheorems.RollbackMeans` | service/controller.go:1606-1643 | when the array refuses the limits, the new mapping is gone exactly if the roll-back works |
| `HostMappingTheorems.UnpublishMeans` | service/controller.go:1765-1839 | what each answer of an unpublish means, and the mappings afterwards |
| `Decimal.ParseItoa` | service/publisher.go:180-193 | a number written in decimal reads back as itself |
| `Decimal.ParseMeans` | service/publisher.go:180-193 | a numeral with or without a sign is read as its value exactly if that fits into 64 bits |
| `Decimal.OnlyNumeralsAreRead` | service/publisher.go:180-193 | nothing else is read |
| `Decimal.ItoaMeans` | service/publisher.go:180-193 | numbers are written without leading zeros, and with a sign only if negative |
| `NfsExport.Share.MaskAddresses` | service/service.go:1647-1649 | every address of the array gets its netmask in place |
| `NfsExport.Share.Holds` | service/service.go:1702-1720 | the loop finds whether a list holds an address of the node |
| `NfsExport.Share.PresentIn` | service/service.go:1619-1631 | the loop collects exactly the masked addresses of the node on a list |
| `NfsExport.Share.Classify` | service/service.go:1695-1743 | incompatible, idempotent and the count of others, as statements about the four lists |
| `NfsExport.Share.ExportFilesystem` | service/service.go:1646-1790 | lists and status of an export |
| `NfsExport.Share.UnexportFilesystem` | service/service.go:1566-1643 | lists and status of an unexport |
| `NfsExportTheorems.WriterNeedsEmptyLists` | service/service.go:1697-1751 | a writer's count of others is not positive exactly when nobody else is on any list |
| `NfsExportTheorems.StepKeepsHolder` | service/service.go:1646-1790 | each writer's export or unexport leaves the access to one node |
| `NfsExportTheorems.WriterIsAlone` | service/service.go:1749-1784 | after a writer's export the other three lists are empty and only this node and the external host have access; a new writer has all its addresses on the list |
| `NfsExportTheorems.WriterSucceedsIff` | service/service.go:1745-1751 | with all calls working, a writer succeeds exactly when nobody else is on any list |
| `NfsExportTheorems.ExportMeans` | service/service.go:1646-1790 | for every mode: what each answer of an export means in terms of the four lists, and who has access afterwards; only the root readers (for MULTI_NODE_READER_ONLY) or the root writers gain, by the node and the external host if it was on no list |
| `NfsExportTheorems.UnexportMeans` | service/service.go:1566-1643 | what each answer of an unexport means; on success the node is on no list |
| `NfsExportTheorems.WritersTakeTurns` | service/service.go:1749-1751 | in every run of writers' exports and of unexports, any two node addresses with access belong to one node |
| `NfsExportTheorems.ReexportSucceedsIff` | service/service.go:1732-1757 | a repeated writer's export changes nothing and succeeds exactly when the first one added no external host |
| `NfsExportTheorems.ExternalHostBlocksReexport` | service/service.go:1749-1751 | the second export of the same node finds the external host in its way |
| `NfsExportTheorems.UnexportRemovesExactly` | service/service.go:1596-1635 | unexport removes the node's entries from all four lists and nothing else |
| `NfsExportTheorems.UnexportUndoesExportIff` | service/service.go:1759-1784 | for a node that was on no list, export then unexport restores all four lists exactly when no external host was added |
| `Listing.Service.List` | service/controller.go:2160-2287 | caches and page of a listing |
| `Listing.CoherentPage` | service/controller.go:2184-2286 | with coherent caches a page is a window of the current list or a read error, and the caches stay coherent |
| `Listing.FirstPageMeans` | service/controller.go:2160-2287 | the first page is read from the array whatever is cached, volumes before snapshots; entries, token, errors and both caches afterwards |
| `Listing.InterferenceIsCoherent` | service/controller.go:2184-2253 | cache clearings and first pages of the same system keep the caches coherent |
| `Listing.WalkCoversTheList` | service/controller.go:2263-2286 | following the tokens yields the rest of the list once, with any cache clearings and first-page listings of the same system in between |
| `Listing.HalfIsCurrentIff` | service/controller.go:2184-2240 | the volumes or the snapshots of a later page are cut from the system's current list exactly when their cache is empty or names the system, and from nil slots otherwise |
| `Listing.AssembledIsWholeIff` | service/controller.go:2255-2261 | the joined list a later page is cut from is the system's own exactly when neither cache in use is another system's |
| `Listing.LaterPagesAreCurrentIff` | service/controller.go:2160-2287 | in every run of listings and of changes that clear the caches, for every query whose reads work, a later page is a window of that list, under the same condition the current one and never a stale one |
| `Listing.NilSlotsHappen` | service/controller.go:2187-2198 | the second page of one system after the first page of another is a nil slot |
| `ListingRaces.WholeCall` | service/controller.go:2199-2217 | reading and storing without anything in between is what a whole listing does to its cache |
| `ListingRaces.CachesStayCurrentIff` | service/controller.go:2160-2287 | in every run of overlapping listings and of changes that clear the caches, the caches are current after every step exactly when no listing stores a nonempty list that its system changed between the read and the store |
| `ListingRaces.PendingIsLastRead` | service/controller.go:2199-2217 | what a listing is about to store is exactly what its system held at the step when the call last read |
| `ListingRaces.StaleAfterClear` | service/controller.go:1121-1128 | a list read before a change and stored after it is stale although the change cleared the caches |
| `VolumeController.Controller.CreateBlockVolume` | service/controller.go:680-746 | volumes, caches, status and ID of a creation; at most the new volume is appended |
| `VolumeController.Controller.CopyBlockVolume` | service/controller.go:3517-3618 | volumes, caches, status and ID of a clone, or of a volume from a snapshot; at most the new volume is appended |
| `VolumeController.Controller.CreateBlockSnapshot` | service/controller.go:2997-3112 | volumes, caches, status and ID of a snapshot; at most one volume is appended |
| `VolumeController.Controller.DeleteBlockVolume` | service/controller.go:1333-1400 | volumes, caches and status of a deletion; with unique IDs and names, volumes in use stay |
| `VolumeController.Controller.DeleteBlockSnapshot` | service/controller.go:3200-3240 | volumes, caches and status of a snapshot deletion, group or not; with unique IDs and names, volumes in use stay |
| `VolumeController.Controller.CollectGroup` | service/controller.go:3258-3267 | the members a listing shows and whether one is in use |
| `VolumeController.Controller.RemoveVolumes` | service/controller.go:3283-3291 | removes the targets in order until one removal fails |
| `VolumeController.Controller.DeleteSnapshotConsistencyGroup` | service/controller.go:3244-3295 | volumes, caches and status of a group deletion |
| `VolumeLifeTheorems.CreationAdds` | service/controller.go:680-746 | any creation, copy or snapshot changes nothing or appends one unmapped volume of a new name |
| `VolumeLifeTheorems.DeletionKeeps` | service/controller.go:1315-1400 | any deletion keeps every volume in use and adds nothing |
| `VolumeLifeTheorems.GroupDeleteIsExact` | service/controller.go:3269-3294 | only members go, or the one snapshot if no member was seen; all of them on success; nothing if a listed member is in use |
| `VolumeLifeTheorems.GroupInUseIsKeptIff` | service/controller.go:3258-3279 | a group in use is kept exactly when its listing worked or no removal did |
| `VolumeLifeTheorems.UnlistedGroupLosesSnapshot` | service/controller.go:3258-3279 | an unlisted group loses one snapshot while another member is in use |
| `VolumeLifeTheorems.VolumesInUseSurvive` | service/controller.go:1358-1362 | in every run of creations, copies, snapshots and deletions no volume in use is removed, and IDs and names stay unique |
| `VolumeLifeTheorems.DeleteSucceedsIff` | service/controller.go:1333-1400 | with all calls working, deletion succeeds exactly for missing or unused volumes and removes that one |
| `VolumeLifeAnswers.DeleteMeans` | service/controller.go:1333-1400 | what each answer of a deletion means; exactly the volume is gone, or nothing |
| `VolumeLifeAnswers.DeleteSnapshotMeans` | service/controller.go:3200-3240 | deleting one snapshot takes exactly that one, if nobody uses it and the removal works |
| `VolumeLifeAnswers.DeleteGroupMeans` | service/controller.go:3244-3295 | a group deletion takes all snapshots of the group and nothing else, none if one is in use, and as many as removals worked if one fails |
| `VolumeLifeAnswers.UnlistedGroupMeans` | service/controller.go:3258-3279 | with a listing that failed, the one snapshot goes for its group |
| `VolumeLifeTheorems.CreateIsIdempotent` | service/controller.go:690-725 | creating again with its calls working returns the same volume; another size or pool is refused; neither changes the array |
| `VolumeLifeAnswers.NewVolumeMeans` | service/controller.go:680-746 | a creation under a new name: volumes, caches, answer and ID for every outcome of its calls |
| `VolumeLifeAnswers.TakenVolumeMeans` | service/controller.go:690-746 | a creation under a name in use hands that volume out exactly if size and pool are as asked for; what each answer means |
| `VolumeLifeAnswers.NewCopyMeans` | service/controller.go:3517-3618 | a copy under a new name: when it succeeds, and the volume it makes |
| `VolumeLifeAnswers.TakenCopyMeans` | service/controller.go:1059-1076 | a copy under a name in use makes nothing, and hands that volume out exactly if its pool is the source's |
| `VolumeLifeAnswers.NewSnapshotMeans` | service/controller.go:2997-3112 | a snapshot under a new name is of the source, with its size and pool; what each answer means |
| `VolumeLifeAnswers.TakenSnapshotMeans` | service/controller.go:2997-3040 | under a name in use, a successful call hands out a snapshot of the source; otherwise it is refused |
| `VolumeLifeTheorems.CopyIsOfSourceIff` | service/controller.go:1059-1076 | a successful copy hands out a volume of the name and pool, a copy of its source at that size exactly when the name was unused or already belonged to one |
| `VolumeLifeTheorems.CopyReturnsUnrelated` | service/controller.go:1067-1076 | a copy of one volume is answered with an unrelated one |
| `VolumeLifeTheorems.SuccessClearsCaches` | service/controller.go:3582-3609 | a successful call cleared the caches or changed nothing a listing shows |
| `VolumeLifeTheorems.UnclearedChange` | service/controller.go:701-735 | a call that does not clear the caches changes nothing a listing shows, unless it is a creation left half done, which adds one entry |
| `VolumeLifeTheorems.EventKeepsCurrentIff` | service/controller.go:680-746 | any call, by the guards of its branches: the caches stay current exactly when it is no half-done creation, or no list that should show the new volume is cached |
| `VolumeLifeTheorems.CachesStayCurrentIff` | service/controller.go:1121-1128 | in every run, failures included, the caches are current after every event exactly when no event goes stale in that way |
| `VolumeLifeTheorems.CachesStayCurrent` | service/controller.go:1121-1128 | in particular in every run of successful calls with listings in between |
| `VolumeLifeTheorems.HalfDoneCreateGoesStale` | service/controller.go:701-705 | a creation that fails after the array made the volume leaves a stale cache |
| `PrefixIndex.Service.UpdateVolumePrefixToSystemsMap` | service/service.go:1795-1838 | the index after registering a system |
| `PrefixIndex.Service.CheckVolumesMap` | service/service.go:1840-1884 | the nested loops accept an ID exactly when the index check does: no system filed under its key holds it, and every listing needed worked |
| `PrefixIndex.UpdateMeans` | service/service.go:1795-1838 | a registration succeeds exactly if the system can be listed, and files it under the first three characters of its first volume alone |
| `PrefixIndex.HandlesNeedNoCheck` | service/service.go:1840-1853 | handles that name a system pass; bare IDs of fewer than three characters do not |
| `PrefixIndex.BareIdMeans` | service/service.go:1855-1884 | a bare ID is refused exactly if a system filed under its first three characters holds it or cannot be listed |
| `PrefixIndex.IndexAnswersAllIff` | service/service.go:1815-1878 | the index answers as a full scan on every legacy ID exactly when each such ID on a registered system is also on one filed under its key; if no two systems hold an ID, exactly when each system is filed under the keys of all its volumes |
| `PrefixIndex.IndexIsHistory` | service/service.go:1795-1838 | after any run, a system is filed under a key exactly if it was, or some registration found it listing a volume with that key first |
| `PrefixIndex.RunAnswersAllIff` | service/service.go:1795-1891 | after every run of registrations and changes from an empty index, whatever the prefixes, for any set of systems that includes those filed: the index answers as a scan of them exactly when each legacy ID on one is also on one that listed, at some registration, a volume with the same key first; no key lists a system twice |
| `PrefixIndex.IndexMissesSecondPrefix` | service/service.go:1811-1878 | a volume with another key than the first one listed is missed |
| `PrefixIndex.IndexMissesLateVolume` | service/service.go:1805-1810 | a system that is empty when it is registered is not filed, and its later volumes are missed |
| `PrefixIndex.StepKeeps` | service/service.go:1795-1838 | each registration or change keeps every registered system filed under its prefix, once |
| `PrefixIndex.IndexAnswersAsScan` | service/service.go:1792-1891 | in every run of registrations and changes with one prefix per system, the index answers as a scan of the registered systems, and no key lists a system twice |
| `PrefixIndex.ReregisterIsNoOp` | service/service.go:1819-1826 | registering a registered system again changes nothing |
| `VolumeId.BlockRoundTrip` | service/service.go:1139-1141 | a block handle gives its volume back exactly when that contains no dash, and its system exactly when neither part does |
| `VolumeId.NfsRoundTrip` | service/service.go:1170-1173 | an NFS handle gives its parts back, dashes included |
| `VolumeId.DecodeJoin` | service/service.go:1432-1465 | a handle names a system exactly when it has one separator, by the ID its alias stands for |
| `VolumeId.HandlesNeverCollide` | service/service.go:1355-1393 | block and NFS handles differ, and each has one reading, for volume IDs without a dash |
| `Probe.Driver.ProbeArray` | service/controller.go:2713-2839 | clients, systems, aliases, array table and default system after a probe, or a crash |
| `Probe.Driver.InitializeSystem` | service/controller.go:2819-2831 | the tables after a first look-up |
| `Probe.Driver.RegisterNames` | service/controller.go:2827-2831 | the tables after registering every configured name in turn |
| `Probe.RegisterEffect` | service/controller.go:2827-2831 | exactly the configured names are added, and lead to the ID of the system |
| `Probe.ProbeMeans` | service/controller.go:2713-2839 | what each answer of a probe means, and exactly when it crashes |
| `Probe.FirstProbeEnters` | service/controller.go:2747-2839 | a first look-up enters clients, systems and aliases exactly for the configured ID, the other names and the own ID of a named system |
| `Probe.RepeatedProbeEnters` | service/controller.go:2713-2839 | any other probe enters at most the client and its names; array table and default system |
| `Probe.InitializeGroundsIff` | service/controller.go:2811-2832 | the exact condition for a first look-up to keep aliases grounded |
| `Probe.ProbeGroundsAliasesIff` | service/controller.go:2811-2832 | a probe keeps every alias leading to a client and a system exactly if it registers no alias or the ID they get is reachable |
| `Probe.NamelessArrayDangles` | service/controller.go:2811-2832 | an array without a name leaves its alias without client and system |
| `Probe.ProbeGroundsDefault` | service/controller.go:2834-2843 | a probe that keeps aliases grounded keeps the default system grounded |
| `Probe.EveryAliasIsGrounded` | service/controller.go:2747-2839 | in every run of probes of named arrays every alias, and the default system, leads to a client and a system |
| `GroupSnapshot.BuildSnapshotDefs` | service/csi_extension_server.go:325-360 | definitions are returned exactly if every source is acceptable, one per source in order |
| `GroupSnapshot.NamesAreGood` | service/csi_extension_server.go:303-356 | the names differ and fit the array for up to 1000 sources |
| `GroupSnapshotTheorems.DefsMean` | service/csi_extension_server.go:325-360 | one snapshot per source, of the volume it names, under the name of the request and the position |
| `GroupSnapshotTheorems.GoodSourceMeans` | service/csi_extension_server.go:325-350 | a source is good exactly if it names the system of the group or none, and passes both look-ups |
| `GroupSnapshot.Server.Lookup` | service/csi_extension_server.go:389-400 | the snapshots of a name |
| `GroupSnapshot.Server.Check` | service/csi_extension_server.go:366-447 | the verdict that the nested loops reach |
| `GroupSnapshotTheorems.LookupDecides` | service/csi_extension_server.go:389-420 | with unique names a look-up finds nothing, or one snapshot whose ancestor decides |
| `GroupSnapshotTheorems.GatherMeans` | service/csi_extension_server.go:389-420 | whichever look-ups fail, what the outer loop has gathered, in terms of the snapshots that match and are seen |
| `GroupSnapshotTheorems.VerdictByCounting` | service/csi_extension_server.go:389-445 | whichever look-ups fail: create exactly if none is seen, mixture exactly if some but not all are, otherwise a count decides, if the listing works |
| `GroupSnapshotTheorems.VerdictIsTrueIff` | service/csi_extension_server.go:391-429 | ignored errors leave the verdict as answered calls would give it exactly when nothing matches, or something matching is seen and, if all match, all are seen and the listing works or the last group has another number of members |
| `GroupSnapshotTheorems.ServedIff` | service/csi_extension_server.go:362-365 | with one group, served exactly when all exist and are seen, the listing works and the group holds nothing else |
| `GroupSnapshotTheorems.ServedIds` | service/csi_extension_server.go:400-445 | a served request is answered with the IDs of the snapshots it names |
| `GroupSnapshotTheorems.ServedByAccident` | service/csi_extension_server.go:438-445 | of requests counted as served, exactly those whose snapshots share the group are |
| `GroupSnapshotTheorems.AccidentHappens` | service/csi_extension_server.go:438-445 | two snapshots in two groups, one with a stranger in it, count as served |
| `GroupSnapshotTheorems.RepeatIsServedIff` | service/csi_extension_server.go:230-268 | a request carried out counts as served when repeated exactly if the listing and its look-ups work, and is made again exactly if all its look-ups fail |
| `Quota.NfsVolume.Expand` | service/controller.go:3352-3416 | size and quota after an NFS expansion, or a crash on a hard limit of zero; sound limits stay sound and do not crash |
| `Quota.CreatedQuotaIsSoundIff` | service/controller.go:771-806 | an accepted quota is sound exactly when the 64-bit product of percentage and size is positive |
| `Quota.CreateQuotaMeans` | service/controller.go:771-806 | the soft limit is the percentage of the size, rounded towards zero, the hard limit the size; refused exactly if the share is nothing or the whole |
| `Quota.NegativePercentage` | service/controller.go:793-806 | a percentage of -1 is accepted |
| `Quota.ScaleKeepsOrder` | service/controller.go:3395-3402 | scaling keeps the soft limit positive and below the hard one |
| `Quota.ScaleLowersRatio` | service/controller.go:3395-3402 | expansion never raises the soft limit's share, and keeps it exactly for multiples |
| `Quota.ScaleMeans` | service/controller.go:3395-3402 | for every size: the soft limit is multiplied by how often the old hard limit fits into the new size |
| `Quota.ExpandMeans` | service/controller.go:3352-3416 | what each answer of an expansion means, and size and quota afterwards, whichever call fails |
| `Quota.SoftLimitStays` | service/controller.go:3395-3402 | growing by half leaves the soft limit as it is |
| `Quota.ExpandKeepsSound` | service/controller.go:3356-3410 | an expansion, with any of its calls failing, keeps sound limits in order and within the filesystem and does not crash |
| `Quota.QuotaStaysSound` | service/controller.go:3356-3410 | in every run of expansions the limits stay in order and within the filesystem, and the share never grows |
| `EphemeralService.EphemeralNode.NodePublishVolume` | service/ephemeral.go:60-240 | volumes, mounts, locks and status of an ephemeral publish; with an unused name, nothing of other volumes is touched |
| `EphemeralService.EphemeralNode.MapAndContinue` | service/ephemeral.go:162-240 | the part from mapping on, with both roll-backs, and the lock file not created, left empty or written |
| `EphemeralService.EphemeralNode.NodeUnpublishVolume` | service/node.go:313-491 | volumes, mounts, locks and status of an unpublish on an SDC node |
| `EphemeralService.EphemeralNode.ReleaseVolume` | service/ephemeral.go:244-306 | unmapping, deletion and removal of the lock |
| `EphemeralTheorems.PublishSucceedsIff` | service/ephemeral.go:60-240 | with all calls working, a new publish, raw or with a filesystem, succeeds exactly for numeric limits and a mode that can be mapped and mounted, unless a private directory is there on a node without mounts; its unpublish then succeeds and restores the whole state |
| `EphemeralAnswers.PublishMeans` | service/ephemeral.go:60-240 | for any name: an ephemeral publish succeeds exactly if its checks, mapping, lock file and mount do; volumes, mounts and lock file afterwards; what the other answers mean |
| `EphemeralAnswers.LockedUnpublishMeans` | service/ephemeral.go:244-306 | unmounting, unmapping, deletion and removal of the lock file in turn: what each answer means and what is left |
| `EphemeralTheorems.LockRemembersVolume` | service/ephemeral.go:244-306 | the lock file gives the volume ID back |
| `EphemeralTheorems.ReleaseRestores` | service/ephemeral.go:244-306 | a successful release gives volumes and lock files back |
| `EphemeralTheorems.UnpublishUndoesPublish` | service/ephemeral.go:127-240 | after both succeed for an unused name, volumes with their mappings and lock files are back; the mount table is back exactly if the device is still seen, or it was a raw block volume and the target was unmounted |
| `EphemeralTheorems.UnseenDeviceLeavesPrivateMount` | service/node.go:448-473 | if the device is not seen at unpublish the private mount of a filesystem stays |
| `EphemeralTheorems.FailedPublishLeavesNothingIff` | service/ephemeral.go:168-238 | if the roll-back works, a failed publish leaves no volume and no lock exactly when its lock file was written; otherwise the volume stays, with an empty lock file exactly if writing it failed |
| `EphemeralTheorems.LostVolume` | service/ephemeral.go:148-151 | the directory of the lock file cannot be made, and the new volume stays without a lock |
| `EphemeralRuns.EmptyLockBlocks` | service/node.go:343-419 | an empty lock file makes every unpublish of its handle fail and change nothing |
| `EphemeralRuns.EmptyLockStaysIff` | service/ephemeral.go:202-213 | in every run of publishes and unpublishes of any handles, it stays empty, and blocks, exactly until a publish of its handle gets as far as writing it |
| `EphemeralRuns.RepeatSucceedsIff` | service/ephemeral.go:127-240 | repeating a publish that failed before its lock file was written, raw or with a filesystem and with all calls working, succeeds exactly for a mode that can be served and limits that are numbers or, if the host was left mapped, read as the array hands them back; unpublishing then gives the state from before the first try |
| `EphemeralRuns.MappedRepeatIff` | service/publisher.go:176-195 | after a failure on the lock file itself, that takes canonical limits and a bandwidth that is a multiple of 1024 |
| `EphemeralRuns.OddBandwidthBlocksRepeat` | service/publisher.go:184-188 | after a failure on the lock file, a bandwidth of 1 Kbps makes every repeat fail |
| `EphemeralNames.RoundTripRestoresIff` | service/ephemeral.go:127-306 | for any name, after publish and unpublish succeed the volume worked on is gone and all others are as before, so the volumes are back exactly when the name was unused |
| `EphemeralNames.TakenVolumeIsDeleted` | service/ephemeral.go:127-306 | a volume that had the name before, used by nobody, is deleted |
| `EphemeralNames.FailedPublishDeletesIff` | service/ephemeral.go:162-240 | a failed publish of a taken name whose roll-back works deletes the volume exactly when the lock file was written and only this node uses the volume then; no other is lost |
| `EphemeralTheorems.PublishTouchesOwnVolume` | service/ephemeral.go:127-240 | a publish, its roll-backs included, touches no other volume, no other lock, and no mount but at its target and the private paths of its volume and handle, whatever fails |
| `EphemeralTheorems.UnpublishTouchesOwnVolume` | service/node.go:343-357 | an unpublish touches at most the volume its lock names, and mounts at the target and that private path |

## Left out

- Mount flags, filesystem types and formatting: they only choose options; the options a mount ends up with are part of the environment.
- NVMe publishing and staging on the node: calls into connectors with little state of their own.
- Directories and files at mount points: whether creating or removing one succeeds is part of the environment.
- Listing a single volume or the snapshots of one volume: it bypasses the caches.
- Listing several arrays in one request: each array's entries replace the previous ones in the code.
- Deletion and snapshots of NFS filesystems, and volume lists in a snapshot request: they repeat the block paths.
- Zones and topology, authentication, configuration and logging: no property of the kind proved here.
- Replication group names and failover actions, and the connectivity checker: their effects are on the array, or in an endless polling loop.
- Concurrent requests on different volumes: of these, only the reading and storing of a listing are split (`ListingRaces`); other calls are whole steps.
- Trimming of spaces in volume and system IDs.
- Expand.ExpandVolume: takes the checked size as an argument, because every level of the recursion checks the same request.
- Ephemeral.NodeUnpublish: a handle with a slash, which the code treats as an NFS volume, is not told apart.
- VolumeLife.CopyVolume: the two kinds of copy, from a volume and from a snapshot, are one function, because their checks are the same.
