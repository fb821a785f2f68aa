/** The column names of the `traffic_stops` table and of the CSV it is loaded from. */
module Columns {
  const StopId := "stop_id"
  const StopDate := "stop_date"
  const StopTime := "stop_time"
  const CountryName := "country_name"
  const DriverGender := "driver_gender"
  const DriverAge := "driver_age"
  const DriverAgeRaw := "driver_age_raw"
  const DriverRace := "driver_race"
  const ViolationRaw := "violation_raw"
  const Violation := "violation"
  const SearchConducted := "search_conducted"
  const SearchType := "search_type"
  const StopOutcome := "stop_outcome"
  const IsArrested := "is_arrested"
  const StopDuration := "stop_duration"
  const DrugsRelatedStop := "drugs_related_stop"
  const VehicleNumber := "vehicle_number"
}
