/** Kernel error numbers returned (negated) by the freezer's control file handlers. */
module Errno {
  const EIO: int := 5
  const EBUSY: int := 16
  const ENODEV: int := 19
}
