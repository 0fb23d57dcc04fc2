/** The operations a session hands to its two work queues (FTPQueue): the main queue
    carries directory and control commands, the transfer queue carries file transfers. */
module QueueOps {

  /** The transfer mode the profile picks for a file; the rule that picks it belongs to
      the profile and is an input of this model. */
  datatype TransferMode = Ascii | Binary

  /** One queued operation with the arguments the session gives its constructor
      (the notification window handle every operation also receives is left out). */
  datatype QueueOp =
    | QueueConnect
    | QueueGetDir(dir: string, parentDirs: seq<string>)
    | QueueNoOp
    | QueueCreateDir(path: string)
    | QueueRemoveDir(path: string)
    | QueueCreateFile(path: string)
    | QueueDeleteFile(path: string)
    | QueueRenameFile(oldPath: string, newPath: string)
    | QueueDownload(remote: string, local: string, mode: TransferMode, code: int)
    | QueueDownloadHandle(remote: string, handle: nat, mode: TransferMode)
    | QueueUpload(remote: string, local: string, mode: TransferMode, code: int)
  {
    /** Whether the operation moves file contents (and so belongs on the transfer queue). */
    predicate IsTransfer() {
      QueueDownload? || QueueDownloadHandle? || QueueUpload?
    }
  }

  /** Everything on the main queue is a control operation. */
  predicate AllControl(q: seq<QueueOp>) {
    forall i :: 0 <= i < |q| ==> !q[i].IsTransfer()
  }

  /** Everything on the transfer queue is a transfer. */
  predicate AllTransfer(q: seq<QueueOp>) {
    forall i :: 0 <= i < |q| ==> q[i].IsTransfer()
  }
}
