/** Outcome values shared by the storage layers. */
module Results {

  /** Why a storage access failed. */
  datatype Error =
    | OutOfRange              // the access does not lie inside the storage
    | DeviceFailure(code: nat) // any failure the underlying media reports

  /** The result of a storage operation: success or the error it reports. */
  datatype Result = Success | Failure(error: Error)

  datatype Option<+T> = None | Some(value: T)
}
