/** Readings of the system's monotonic clock. */
module Clock {
  datatype Timespec = Timespec(sec: int, nsec: int)
}
