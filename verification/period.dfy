/** One presence record: a vehicle was inside the geofence from `enterTime` to `exitTime`. */
module Periods {
  import opened Calendar

  datatype Period = Period(vehicleId: int, enterTime: Minute, exitTime: Minute)
}
