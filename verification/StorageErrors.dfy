/** Error values of the storage layer.  Fatal stands for log.Fatalf and for Go run-time panics. */
module StorageErrors {
  datatype Error =
    | ErrArgsIllegal | ErrOutOfBound | ErrNotContinuous | ErrClosed | ErrNotWritable
    | ErrCompacted | ErrUnavailable | ErrNotContain | ErrKeyNotFound | Fatal

  datatype Result<+T> = Ok(value: T) | Err(error: Error)
}
