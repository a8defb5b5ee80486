/** Values shared by the whole model: CSI access modes, gRPC status codes and options. */
module CsiTypes {

  datatype Option<+T> = None | Some(value: T)

  /** Access modes of a CSI volume capability. */
  datatype AccessMode =
    | UnknownMode
    | SingleNodeWriter
    | SingleNodeReaderOnly
    | MultiNodeReaderOnly
    | MultiNodeSingleWriter
    | MultiNodeMultiWriter
    | SingleNodeSingleWriter
    | SingleNodeMultiWriter

  /** gRPC status codes; an error without a code of its own is reported as Unknown. */
  datatype Status =
    | OK
    | Unknown
    | InvalidArgument
    | NotFound
    | AlreadyExists
    | FailedPrecondition
    | Aborted
    | OutOfRange
    | Internal
    | Unavailable

  /** The access mode and access type a caller asks for; every part may be missing from a request. */
  datatype AccessType = NoAccessType | BlockAccess | MountAccess
  datatype Capability = Capability(mode: Option<AccessMode>, access: AccessType)
}
