/**
  The values the fleet reports are computed from and made of: one fleet log
  entry, its direction, a (user, trip distance) pair, the structured lines of
  the reports, and the two Java exceptions the reports can end in.
 */
module Domain {

  /** Whether the car leaves the company (`Out`) or comes back (`In`). */
  datatype Direction = Out | In

  /** One line of the fleet log. `date` is only ever displayed; `distanceCounter` is the odometer reading. */
  datatype LogEntry = LogEntry(
    day: int,
    date: string,
    direction: Direction,
    carId: string,
    userId: int,
    distanceCounter: int)
  {
    /** `LogEntry.isDay`: the entry was recorded on day `d`. */
    predicate IsDay(d: int) {
      day == d
    }
  }

  /** `Pair`: `left` is a user id, `right` the distance of one of that user's trips. */
  datatype Pair = Pair(left: int, right: int)

  /** The fields of the "<day>.nap rendszám: <carId>" report. */
  datatype LastTakenLine = LastTakenLine(day: int, carId: string)

  /** The fields of one "<carId> <distance> km" line of the monthly report. */
  datatype DistanceLine = DistanceLine(carId: string, distance: int)

  /** The fields of the "Leghosszabb út: <distance> km, személy: <userId>" report. */
  datatype LongestTripLine = LongestTripLine(distance: int, userId: int)

  /**
    One itinerary line: a completed trip (a checkout and the next entry of the
    same car), or a trailing checkout with no later entry.
   */
  datatype ItineraryLine =
    | TripLine(userId: int, outDate: string, outCounter: int, inDate: string, inCounter: int)
    | OpenLine(userId: int, date: string, counter: int)

  /** The unchecked exceptions the reports can throw. */
  datatype Exception =
    | IndexOutOfBounds  // `List.get(size() - 1)` on an empty list
    | NoSuchElement     // `Optional.get()` on an empty optional

  datatype Result<T> = Success(value: T) | Failure(error: Exception)
}
