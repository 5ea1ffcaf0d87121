/** The per-vessel record the engine reads: one row of the fleet table. */
module Vessels {
  import opened Wrappers

  /**
   A vessel as the risk scorer and alert generator see it. isFriendly is
   the stored integer flag (0 means non-friendly). anomaly is the outlier
   detector's label, -1 for an outlier, and None while no label exists.
   */
  datatype Vessel = Vessel(
    id: string,
    lat: real,
    lon: real,
    speed: real,
    isFriendly: int,
    anomaly: Option<int>)
}
