# Company car fleet reports — a Dafny model of `CarService`

`CarService` is the analytical layer of a company-car fleet log. It is built
once from a chronologically ordered list of log entries. Each entry records a
day, a date, a direction (`Out`: the car leaves; `In`: it comes back), a car
(licence plate), a user and an odometer reading. The service only ever reads
that list. It derives these reports from it:

- the day and car of the last checkout;
- the entries of one day, rendered and joined by CRLF;
- the number of cars currently out, i.e. the cars with an odd number of entries;
- each car's monthly distance: last odometer reading minus first;
- the longest trip of any user, where a user's entries are paired by position;
- the itinerary of one car, with its entries paired by position.

The model has three modules:

- `Domain` (`domain.dfy`): the log entry, its direction, the (user, distance)
  pair, the structured lines of the reports, and the two Java exceptions the
  reports can end in (`IndexOutOfBounds` for `get(size() - 1)` on an empty
  list, `NoSuchElement` for `Optional.get()` on an empty optional), as a
  `Result`.
- `Seqs` (`seqs.dfy`): the stream stages the reports are built from. These are
  `filter(...).collect(toList())` as `Filter` and `distinct()` as `Distinct`,
  with their order, multiplicity and cardinality lemmas.
- `CarService` (`car_service.dfy`): the reports.

The `CarService` object has a single `final` field that nothing changes. Every
report is therefore a function of that list, passed as `log`. The stream
pipelines are functions. The three places where the Java code loops and
appends to a local `ArrayList` are methods:

- the loops of `createPairPerUser` and `getItinerary` are proved equal to the
  functions that specify them;
- the `forEach` of `createPairs` takes the iteration order of the user set as
  a parameter, and is proved, for every order that lists each user once, to
  collect each trip of each user exactly as often as that user has it.

Where the Java code throws, the model returns `Failure` with the exception
that code throws:

- `getLastTakenCar` with no checkout at all;
- `getFirstLog` and `getLastLog` for a car that is not in the log;
- `getMaxDistancePair` when no user has two entries.

`getMonthlyDistance` computes `getLastLog(carId) - getFirstLog(carId)`. Java
evaluates the left operand first, so an unknown car fails with the exception
of `getLastLog`: `IndexOutOfBounds`.

## Model

| member | source | states |
|---|---|---|
| Seqs.Filter | src/hu/companycar/controller/CarService.java:19-21 | `filter(...).collect(toList())`: the result holds exactly the elements that satisfy the condition, and is no longer than the input |
| Seqs.FilterConcat | src/hu/companycar/controller/CarService.java:27-28 | filtering keeps the original relative order: filtering two consecutive stretches and concatenating equals filtering the whole |
| Seqs.FilterMultiset | src/hu/companycar/controller/CarService.java:27-28 | filtering keeps every occurrence of a kept element and drops every other element |
| Seqs.FilterLast | src/hu/companycar/controller/CarService.java:19-22 | the last element of a non-empty filter result is the element at the last position of the input that satisfies the condition |
| Seqs.Distinct | src/hu/companycar/controller/CarService.java:48-49 | `distinct()`: the same values as the input, none twice |
| Seqs.NoDuplicatesCard | src/hu/companycar/controller/CarService.java:48-49 | a sequence without duplicates is as long as its set of values is large |
| Seqs.DistinctCard | src/hu/companycar/controller/CarService.java:48-49 | `distinct()` yields exactly one element per distinct value |
| CarService.GetUsers | src/hu/companycar/controller/CarService.java:96-100 | every entry's user id is in the set, and every id in the set belongs to some entry |
| CarService.GetCarIdLogs | src/hu/companycar/controller/CarService.java:133-137 | every entry of the result is of that car; the result is empty exactly when the car does not occur in the log |
| CarService.CarIdLogsMembers | src/hu/companycar/controller/CarService.java:133-137 | the entries of a car are exactly the log's entries with that car id |
| CarService.CreateUserIdEntries | src/hu/companycar/controller/CarService.java:113-117 | every entry of the result is of that user; the result is empty exactly when the user does not occur in the log |
| CarService.UserIdEntriesMembers | src/hu/companycar/controller/CarService.java:113-117 | the entries of a user are exactly the log's entries with that user id |
| CarService.GetLastTakenCar | src/hu/companycar/controller/CarService.java:18-24 | it fails exactly when no entry is a checkout, and then with `IndexOutOfBounds`; otherwise it returns the day and car of an `Out` entry after which every entry is `In`, so it never reports an `In` entry |
| CarService.CertainDayEntries | src/hu/companycar/controller/CarService.java:27-28 | the entries of that day and no others, each as often as in the log |
| CarService.CertainDayEntriesConcat | src/hu/companycar/controller/CarService.java:27-28 | the day filter keeps the log's order: the entries of a day in two consecutive stretches of log are those of the first stretch followed by those of the second |
| CarService.JoinLines | src/hu/companycar/controller/CarService.java:30 | `joining("\r\n")` of no lines is the empty string, and of one line is that line |
| CarService.JoinLinesConcat | src/hu/companycar/controller/CarService.java:30 | joining two non-empty blocks of lines puts exactly one CRLF between them |
| CarService.RenderAll | src/hu/companycar/controller/CarService.java:29 | `map(LogEntry::toString)`: one rendered line per entry, in order |
| CarService.RenderAllConcat | src/hu/companycar/controller/CarService.java:29 | rendering two stretches of entries and concatenating is rendering their concatenation |
| CarService.GetCertainDayLogs | src/hu/companycar/controller/CarService.java:26-31 | the empty string when no entry is of that day; the rendering of the entry when exactly one is |
| CarService.CertainDayLogsConcat | src/hu/companycar/controller/CarService.java:26-31 | the report of a log is the reports of its two parts joined by CRLF, when both parts have entries of that day |
| CarService.CarIdLogsAppend | src/hu/companycar/controller/CarService.java:133-137 | appending an entry to the log appends it to the entries of its own car and leaves every other car's entries unchanged |
| CarService.CarIdLogsSnoc | src/hu/companycar/controller/CarService.java:57-60 | appending an entry adds its car to the cars of the log and appends the entry to that car's entries only |
| CarService.CreateCarIdCountMap | src/hu/companycar/controller/CarService.java:57-60 | `groupingBy(getCarId, counting())`: the keys are exactly the cars of the log, and each is mapped to its number of entries |
| CarService.CountTakenCars | src/hu/companycar/controller/CarService.java:33-37 | the number of distinct cars with an odd number of entries, and so at most the number of distinct cars |
| CarService.OddCars | src/hu/companycar/controller/CarService.java:34-35 | the cars with an odd count in the count map are the cars with an odd number of entries |
| CarService.TakenCarsUnderAlternation | src/hu/companycar/controller/CarService.java:33-37 | when each car's entries alternate `Out`, `In`, ... from a checkout, the count is the number of cars whose last entry is a checkout |
| CarService.CarFirstEntry | src/hu/companycar/controller/CarService.java:63-65 | the first of a car's entries sits at the first position of that car in the log |
| CarService.CarLastEntry | src/hu/companycar/controller/CarService.java:71-75 | the last of a car's entries sits at the last position of that car in the log |
| CarService.GetFirstLog | src/hu/companycar/controller/CarService.java:62-68 | it succeeds exactly for a car of the log, with the reading at that car's first position; otherwise it fails with `NoSuchElement` |
| CarService.Readings | src/hu/companycar/controller/CarService.java:73-74 | `map(getDistanceCounter)`: one reading per entry, in order |
| CarService.GetLastLog | src/hu/companycar/controller/CarService.java:70-76 | it succeeds exactly for a car of the log, with the reading at that car's last position; otherwise it fails with `IndexOutOfBounds` |
| CarService.GetMonthlyDistance | src/hu/companycar/controller/CarService.java:53-55 | it succeeds exactly for a car of the log, with the reading at its last position minus the reading at its first; otherwise it fails with `getLastLog`'s `IndexOutOfBounds` |
| CarService.SingleEntryDistance | src/hu/companycar/controller/CarService.java:53-55 | a car with a single entry has a monthly distance of 0 |
| CarService.FirstBeforeLast | src/hu/companycar/controller/CarService.java:62-76 | a car's first position comes no later than its last |
| CarService.MonthlyDistanceNonNegative | src/hu/companycar/controller/CarService.java:53-55 | when the car's readings never decrease along the log, its monthly distance is not negative |
| CarService.CarIdSeq | src/hu/companycar/controller/CarService.java:47-48 | `map(i -> i.getCarId())`: exactly the cars of the log |
| CarService.DistinctCarIds | src/hu/companycar/controller/CarService.java:47-49 | the distinct car ids are as many as the cars of the log |
| CarService.CreateCarIdDistanceMap | src/hu/companycar/controller/CarService.java:46-51 | the keys are exactly the cars of the log, and each is mapped to its monthly distance |
| CarService.LinesOf | src/hu/companycar/controller/CarService.java:40-41 | one line per key in key order, each with the distance the map gives it, and no other lines |
| CarService.GetMonthlyDistances | src/hu/companycar/controller/CarService.java:39-43 | one line per distinct car of the log |
| CarService.MonthlyDistancesValues | src/hu/companycar/controller/CarService.java:39-51 | each line of the monthly report holds its car's monthly distance |
| CarService.MonthlyDistancesDistinctCars | src/hu/companycar/controller/CarService.java:39-51 | no car appears on two lines of the monthly report |
| CarService.MonthlyDistancesCoverCars | src/hu/companycar/controller/CarService.java:39-51 | every car of the log has a line in the monthly report, holding its monthly distance |
| CarService.PairUpIndex | src/hu/companycar/controller/CarService.java:103-109 | n entries give n/2 pairs, and pair k carries the user and reading 2k+1 minus reading 2k; an odd trailing entry is dropped |
| CarService.PairUpSnocTrip | src/hu/companycar/controller/CarService.java:106-108 | two more entries after an even number of entries add one trip at the end, of the second reading minus the first |
| CarService.PairUpSnocOdd | src/hu/companycar/controller/CarService.java:104 | one more entry after an even number of entries adds no trip |
| CarService.PairUpPrefixStep | src/hu/companycar/controller/CarService.java:106-108 | one step of the loop: the pairing of the first i+2 entries is that of the first i entries plus the trip of entries i and i+1 |
| CarService.PairUpPrefixEnd | src/hu/companycar/controller/CarService.java:104-106 | where the loop stops, at `lastIndex`, the pairing of the prefix is the pairing of all the entries |
| CarService.UserTripsOfUser | src/hu/companycar/controller/CarService.java:101-111 | a user with n entries has n/2 trips, each attributed to that user |
| CarService.CreatePairPerUser | src/hu/companycar/controller/CarService.java:101-111 | the loop's result is the positional pairing of the user's entries in log order |
| CarService.CollectUser | src/hu/companycar/controller/CarService.java:91 | `addAll` of one pending user's trips makes that user collected and leaves the others as they were |
| CarService.UserOrder | src/hu/companycar/controller/CarService.java:96-99 | one iteration order of the user set, the one `getMaxDistancePair` is given: every user once, and no other value |
| CarService.CreatePairs | src/hu/companycar/controller/CarService.java:89-94 | for any iteration order listing each user of the log once, each pair occurs in the result exactly as often as among its user's trips |
| CarService.CollectedTrips | src/hu/companycar/controller/CarService.java:89-94 | the collected pairs are exactly the users' trips; there are none exactly when no user has two entries |
| CarService.MaxByRight | src/hu/companycar/controller/CarService.java:84-85 | `max(comparing(Pair::getRight))` of a non-empty list is one of its pairs, with no pair's distance larger |
| CarService.GetMaxDistancePair | src/hu/companycar/controller/CarService.java:83-87 | it fails exactly when no user has two entries, with `NoSuchElement`; otherwise it returns a trip of some user whose distance no user's trip exceeds |
| CarService.GetLongestDistancePerUser | src/hu/companycar/controller/CarService.java:78-81 | the same for the distance and user of the reported trip |
| CarService.ItineraryLength | src/hu/companycar/controller/CarService.java:123-129 | n entries give (n+1)/2 itinerary lines |
| CarService.ItineraryTrips | src/hu/companycar/controller/CarService.java:124-126 | line k < n/2 is the trip line of entries 2k and 2k+1 |
| CarService.ItineraryOpen | src/hu/companycar/controller/CarService.java:127-129 | a line is an open line exactly when n is odd and it is the last line, and that line is built from entry n-1 |
| CarService.ItinerarySnocTrip | src/hu/companycar/controller/CarService.java:124-126 | two more entries after an even number of entries add one trip line at the end |
| CarService.ItinerarySnocOpen | src/hu/companycar/controller/CarService.java:127-129 | one more entry after an even number of entries adds one open line at the end |
| CarService.ItineraryPrefixStep | src/hu/companycar/controller/CarService.java:124-126 | one step of the loop: the itinerary of the first i+2 entries is that of the first i entries plus the trip line of entries i and i+1 |
| CarService.ItineraryPrefixEnd | src/hu/companycar/controller/CarService.java:123-129 | where the loop stops, at `lastIndex`, the itinerary of all entries is that of the prefix, followed by the open line of the last entry exactly when n is odd |
| CarService.GetItinerary | src/hu/companycar/controller/CarService.java:119-131 | the loop and the trailing append build the itinerary of the car's entries in log order; the result is empty exactly when the car does not occur in the log |

## Left out

- Text formatting. `String.format` and `LogEntry.toString` are not modelled. The model returns structured lines: `LastTakenLine`, `DistanceLine`, `LongestTripLine` and `ItineraryLine`. `getCertainDayLogs` takes the entry renderer as its parameter `toString`. `LogEntry.toString` is not part of this model.
- `getMonthlyDistances` joining its lines with CRLF. Its lines are returned as a sequence; the CRLF join itself is modelled by `JoinLines` for `getCertainDayLogs`.
- CarService.PrintTrip and CarService.PrintOpen (the two `printLog` overloads) have no contract of their own. They only build the structured line; `ItineraryTrips` and `ItineraryOpen` state what they contribute.
- Iteration order of `HashMap` and `HashSet`. `GetMonthlyDistances` lists the cars in first-seen order, and no contract depends on that order. `CreatePairs` is proved for every order of the users; `GetMaxDistancePair` hands it the first-seen one, and its contract does not depend on it.
- CarService.MaxByRight: which of several tied maxima is chosen is not stated. The body keeps the earlier one, as `BinaryOperator.maxBy` does, but the contract states only that the result is a maximum.
- Java `int` overflow in the odometer subtractions and `long` overflow in the count. Integers here are unbounded.
- Loading the log file, the command-line menu, and the `LogEntry`, `Direction` and `Pair` classes beyond the fields used here. Those classes are modelled as datatypes with exactly those fields.
- Validation of the `Out`/`In` alternation. The source never checks it; `TakenCarsUnderAlternation` only assumes it, as a hypothesis.
