/** One scheduled train run over one directed connection. The record is
    immutable: its constructor stores the four values as given and enforces no
    relation between them; every such relation comes from the timetable
    generator. */
module Schedules {
  import opened LocalTime
  import opened Stations

  datatype TrainSchedule = TrainSchedule(
    departureTime: Time,
    arrivalTime: Time,
    from: Station,
    to: Station)
}
