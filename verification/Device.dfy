/** The block device behind a volume. */
module Devices {
  /** `faults` counts the transfers inside the volume that failed. */
  class Device {
    ghost var faults: nat

    constructor ()
      ensures faults == 0
    {
      faults := 0;
    }

    /** A transfer that the device accepts happens or fails. */
    method Transfer() returns (ok: bool)
      modifies this
      ensures faults == old(faults) + if ok then 0 else 1
    {
      ok := *;
      if !ok {
        faults := faults + 1;
      }
    }
  }
}
