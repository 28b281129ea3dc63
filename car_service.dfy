/**
  The reports of `CarService` over a chronologically ordered fleet log.

  A `CarService` holds one final list of log entries and never changes it, so
  every report here is a function (or, where the Java code loops, a method) of
  that list, passed as `log`.
 */
module CarService {
  import opened Seqs
  import opened Domain

  // ---------------------------------------------------------------------------
  // Selections of the log

  /** The filter condition `i.getDirection() == Direction.Out`. */
  predicate IsOut(e: LogEntry) {
    e.direction == Out
  }

  /** The filter condition `i.isDay(day)`. */
  function OnDay(day: int): LogEntry -> bool {
    (e: LogEntry) => e.IsDay(day)
  }

  /** The filter condition `i.getCarId().equals(carId)`. */
  function OfCar(carId: string): LogEntry -> bool {
    (e: LogEntry) => e.carId == carId
  }

  /** The filter condition `i.getUserId() == userId`. */
  function OfUser(userId: int): LogEntry -> bool {
    (e: LogEntry) => e.userId == userId
  }

  /** The car ids that occur in the log. */
  function CarIds(log: seq<LogEntry>): set<string> {
    set e | e in log :: e.carId
  }

  /** `getUsers`: the user ids that occur in the log. */
  function GetUsers(log: seq<LogEntry>): (r: set<int>)
    ensures forall i :: 0 <= i < |log| ==> log[i].userId in r
    ensures forall u :: u in r ==> exists i :: 0 <= i < |log| && log[i].userId == u
  {
    var r := set e | e in log :: e.userId;
    assert forall i :: 0 <= i < |log| ==> log[i] in log;
    r
  }

  /** `getCarIdLogs`: the entries of one car, in log order. */
  function GetCarIdLogs(log: seq<LogEntry>, carId: string): (r: seq<LogEntry>)
    ensures forall k :: 0 <= k < |r| ==> r[k].carId == carId
    ensures r == [] <==> carId !in CarIds(log)
  {
    var r := Filter(log, OfCar(carId));
    assert forall k :: 0 <= k < |r| ==> r[k] in r;
    assert r != [] ==> r[0] in log && r[0].carId in CarIds(log);
    assert carId in CarIds(log) ==> r != [] by {
      if carId in CarIds(log) {
        var e :| e in log && e.carId == carId;
        assert e in r;
      }
    }
    r
  }

  /** The entries of a car are exactly the log's entries with that car id. */
  lemma CarIdLogsMembers(log: seq<LogEntry>, carId: string)
    ensures forall e :: e in GetCarIdLogs(log, carId) <==> e in log && e.carId == carId
  {
  }

  /** `createUserIdEntries`: the entries of one user, in log order. */
  function CreateUserIdEntries(log: seq<LogEntry>, userId: int): (r: seq<LogEntry>)
    ensures forall k :: 0 <= k < |r| ==> r[k].userId == userId
    ensures r == [] <==> userId !in GetUsers(log)
  {
    var r := Filter(log, OfUser(userId));
    assert forall k :: 0 <= k < |r| ==> r[k] in r;
    assert r != [] ==> r[0] in log && r[0].userId in GetUsers(log);
    assert userId in GetUsers(log) ==> r != [] by {
      if userId in GetUsers(log) {
        var e :| e in log && e.userId == userId;
        assert e in r;
      }
    }
    r
  }

  /** The entries of a user are exactly the log's entries with that user id. */
  lemma UserIdEntriesMembers(log: seq<LogEntry>, userId: int)
    ensures forall e :: e in CreateUserIdEntries(log, userId) <==> e in log && e.userId == userId
  {
  }

  // ---------------------------------------------------------------------------
  // getLastTakenCar

  /**
    `getLastTakenCar`: the day and car of the last checkout. With no checkout
    at all, `takenCars.get(-1)` throws.
   */
  function GetLastTakenCar(log: seq<LogEntry>): (r: Result<LastTakenLine>)
    ensures r.Failure? <==> forall e :: e in log ==> e.direction == In
    ensures r.Failure? ==> r.error == IndexOutOfBounds
    ensures r.Success? ==>
              exists i :: 0 <= i < |log| && log[i].direction == Out
                          && r.value == LastTakenLine(log[i].day, log[i].carId)
                          && forall j :: i < j < |log| ==> log[j].direction == In
  {
    var takenCars := Filter(log, IsOut);
    if |takenCars| == 0 then
      Failure(IndexOutOfBounds)
    else
      assert takenCars[0] in takenCars;
      FilterLast(log, IsOut);
      var entry := takenCars[|takenCars| - 1];
      Success(LastTakenLine(entry.day, entry.carId))
  }

  // ---------------------------------------------------------------------------
  // getCertainDayLogs

  /** The entries `getCertainDayLogs` prints: exactly those of day `day`, each as often as in the log. */
  function CertainDayEntries(log: seq<LogEntry>, day: int): (r: seq<LogEntry>)
    ensures forall e :: e in r <==> e in log && e.day == day
    ensures forall e :: multiset(r)[e] == if e.day == day then multiset(log)[e] else 0
  {
    FilterMultiset(log, OnDay(day));
    Filter(log, OnDay(day))
  }

  /** The day filter keeps the log's order: filtering two consecutive stretches of log and concatenating is filtering the whole. */
  lemma CertainDayEntriesConcat(a: seq<LogEntry>, b: seq<LogEntry>, day: int)
    ensures CertainDayEntries(a + b, day) == CertainDayEntries(a, day) + CertainDayEntries(b, day)
  {
    FilterConcat(a, b, OnDay(day));
  }

  /** `Collectors.joining("\r\n")`. */
  function JoinLines(lines: seq<string>): (r: string)
    ensures lines == [] ==> r == ""
    ensures |lines| == 1 ==> r == lines[0]
    decreases |lines|
  {
    if lines == [] then ""
    else if |lines| == 1 then lines[0]
    else lines[0] + "\r\n" + JoinLines(lines[1..])
  }

  /** Joining two non-empty blocks of lines puts exactly one separator between them. */
  lemma {:induction false} JoinLinesConcat(a: seq<string>, b: seq<string>)
    requires a != [] && b != []
    ensures JoinLines(a + b) == JoinLines(a) + "\r\n" + JoinLines(b)
    decreases |a|
  {
    if |a| > 1 {
      assert (a + b)[1..] == a[1..] + b;
      JoinLinesConcat(a[1..], b);
    } else {
      assert (a + b)[1..] == b;
    }
  }

  /** The rendered lines of a sequence of entries (`map(LogEntry::toString)`). */
  function RenderAll(es: seq<LogEntry>, toString: LogEntry -> string): (r: seq<string>)
    ensures |r| == |es|
    ensures forall i :: 0 <= i < |es| ==> r[i] == toString(es[i])
  {
    seq(|es|, i requires 0 <= i < |es| => toString(es[i]))
  }

  /** Rendering two stretches of entries and concatenating is rendering their concatenation. */
  lemma RenderAllConcat(a: seq<LogEntry>, b: seq<LogEntry>, toString: LogEntry -> string)
    ensures RenderAll(a + b, toString) == RenderAll(a, toString) + RenderAll(b, toString)
  {
    var ra, rb, rab := RenderAll(a, toString), RenderAll(b, toString), RenderAll(a + b, toString);
    forall i | 0 <= i < |rab| ensures rab[i] == (ra + rb)[i] {
      if i < |a| {
        assert (a + b)[i] == a[i];
      } else {
        assert (a + b)[i] == b[i - |a|];
      }
    }
  }

  /**
    `getCertainDayLogs`: the matching entries rendered by `toString` (the
    `LogEntry.toString` of the source, which is not part of this model) and
    joined by CRLF; the empty string when no entry is of that day.
   */
  function GetCertainDayLogs(log: seq<LogEntry>, day: int, toString: LogEntry -> string): (r: string)
    ensures (forall e :: e in log ==> e.day != day) ==> r == ""
    ensures forall e :: CertainDayEntries(log, day) == [e] ==> r == toString(e)
  {
    var es := CertainDayEntries(log, day);
    assert es != [] ==> es[0] in es;
    JoinLines(RenderAll(es, toString))
  }

  /** The report of a log is the reports of its two parts joined, when both parts have entries of that day. */
  lemma CertainDayLogsConcat(a: seq<LogEntry>, b: seq<LogEntry>, day: int, toString: LogEntry -> string)
    requires CertainDayEntries(a, day) != [] && CertainDayEntries(b, day) != []
    ensures GetCertainDayLogs(a + b, day, toString)
            == GetCertainDayLogs(a, day, toString) + "\r\n" + GetCertainDayLogs(b, day, toString)
  {
    var ea, eb := CertainDayEntries(a, day), CertainDayEntries(b, day);
    CertainDayEntriesConcat(a, b, day);
    var ra, rb := RenderAll(ea, toString), RenderAll(eb, toString);
    RenderAllConcat(ea, eb, toString);
    JoinLinesConcat(ra, rb);
    assert GetCertainDayLogs(a + b, day, toString) == JoinLines(ra + rb);
  }

  // ---------------------------------------------------------------------------
  // countTakenCars

  /** Appending an entry to the log appends it to the entries of its own car only. */
  lemma CarIdLogsAppend(prefix: seq<LogEntry>, last: LogEntry, carId: string)
    ensures GetCarIdLogs(prefix + [last], carId)
            == GetCarIdLogs(prefix, carId) + (if last.carId == carId then [last] else [])
  {
    var log := prefix + [last];
    assert log[..|log| - 1] == prefix;
  }

  /** Appending an entry to the log adds its car, and appends the entry to that car's entries only. */
  lemma CarIdLogsSnoc(prefix: seq<LogEntry>, last: LogEntry)
    ensures CarIds(prefix + [last]) == CarIds(prefix) + {last.carId}
    ensures forall c :: GetCarIdLogs(prefix + [last], c)
                        == GetCarIdLogs(prefix, c) + (if last.carId == c then [last] else [])
    ensures forall c :: |GetCarIdLogs(prefix + [last], c)|
                        == |GetCarIdLogs(prefix, c)| + (if last.carId == c then 1 else 0)
  {
    var log := prefix + [last];
    assert forall e :: e in log <==> e in prefix || e == last;
    forall c ensures GetCarIdLogs(log, c) == GetCarIdLogs(prefix, c) + (if last.carId == c then [last] else []) {
      CarIdLogsAppend(prefix, last, c);
    }
  }

  /** `createCarIdCountMap`: every car of the log mapped to its number of entries. */
  function CreateCarIdCountMap(log: seq<LogEntry>): (m: map<string, nat>)
    ensures m.Keys == CarIds(log)
    ensures forall c :: c in m ==> m[c] == |GetCarIdLogs(log, c)|
    decreases |log|
  {
    if log == [] then map[]
    else
      var prefix, last := log[..|log| - 1], log[|log| - 1];
      assert log == prefix + [last];
      var m := CreateCarIdCountMap(prefix);
      CountMapStep(prefix, last, m);
      m[last.carId := if last.carId in m then m[last.carId] + 1 else 1]
  }

  /** Counting one more entry keeps the count map exact. */
  lemma CountMapStep(prefix: seq<LogEntry>, last: LogEntry, m: map<string, nat>)
    requires m.Keys == CarIds(prefix)
    requires forall c :: c in m ==> m[c] == |GetCarIdLogs(prefix, c)|
    ensures var m' := m[last.carId := if last.carId in m then m[last.carId] + 1 else 1];
            m'.Keys == CarIds(prefix + [last])
            && forall c :: c in m' ==> m'[c] == |GetCarIdLogs(prefix + [last], c)|
  {
    CarIdLogsSnoc(prefix, last);
  }

  /** `countTakenCars`: the number of cars with an odd number of entries. */
  function CountTakenCars(log: seq<LogEntry>): (n: nat)
    ensures n == |set c | c in CarIds(log) && |GetCarIdLogs(log, c)| % 2 == 1|
    ensures n <= |CarIds(log)|
  {
    var m := CreateCarIdCountMap(log);
    var odd := set c | c in m.Keys && m[c] % 2 > 0;
    OddCars(log);
    SubsetCard(odd, CarIds(log));
    |odd|
  }

  /** The cars with an odd count in the count map are the cars with an odd number of entries. */
  lemma OddCars(log: seq<LogEntry>)
    ensures (set c | c in CreateCarIdCountMap(log).Keys && CreateCarIdCountMap(log)[c] % 2 > 0)
            == (set c | c in CarIds(log) && |GetCarIdLogs(log, c)| % 2 == 1)
  {
  }

  /** A subset is no larger than its superset. */
  lemma SubsetCard(a: set<string>, b: set<string>)
    requires a <= b
    ensures |a| <= |b|
  {
    assert b == a + (b - a);
  }

  /** The entries alternate Out, In, Out, ..., starting with Out. */
  predicate Alternates(es: seq<LogEntry>) {
    forall i :: 0 <= i < |es| ==> es[i].direction == (if i % 2 == 0 then Out else In)
  }

  /** The last entry of the car is a checkout. */
  predicate IsTakenOut(log: seq<LogEntry>, carId: string) {
    var es := GetCarIdLogs(log, carId);
    es != [] && es[|es| - 1].direction == Out
  }

  /**
    Why counting odd entry counts counts the cars that are out: when every
    car's entries start with a checkout and alternate, a car has an odd
    number of entries exactly when its last entry is a checkout.
   */
  lemma TakenCarsUnderAlternation(log: seq<LogEntry>)
    requires forall c :: c in CarIds(log) ==> Alternates(GetCarIdLogs(log, c))
    ensures CountTakenCars(log) == |set c | c in CarIds(log) && IsTakenOut(log, c)|
  {
    forall c | c in CarIds(log)
      ensures |GetCarIdLogs(log, c)| % 2 == 1 <==> IsTakenOut(log, c)
    {
      var es := GetCarIdLogs(log, c);
      assert Alternates(es);
      assert es[|es| - 1].direction == (if (|es| - 1) % 2 == 0 then Out else In);
    }
    assert (set c | c in CarIds(log) && |GetCarIdLogs(log, c)| % 2 == 1)
        == (set c | c in CarIds(log) && IsTakenOut(log, c));
  }

  // ---------------------------------------------------------------------------
  // getMonthlyDistances

  /** Position `i` holds the first entry of car `carId`. */
  ghost predicate FirstOf(log: seq<LogEntry>, carId: string, i: int) {
    0 <= i < |log| && log[i].carId == carId && forall j :: 0 <= j < i ==> log[j].carId != carId
  }

  /** Position `i` holds the last entry of car `carId`. */
  ghost predicate LastOf(log: seq<LogEntry>, carId: string, i: int) {
    0 <= i < |log| && log[i].carId == carId && forall j :: i < j < |log| ==> log[j].carId != carId
  }

  /** The first of a car's entries sits at the first position of that car in the log. */
  lemma {:induction false} CarFirstEntry(log: seq<LogEntry>, carId: string)
    requires GetCarIdLogs(log, carId) != []
    ensures exists i :: FirstOf(log, carId, i) && log[i] == GetCarIdLogs(log, carId)[0]
    decreases |log|
  {
    var prefix, last := log[..|log| - 1], log[|log| - 1];
    assert log == prefix + [last];
    CarIdLogsAppend(prefix, last, carId);
    if GetCarIdLogs(prefix, carId) == [] {
      assert FirstOf(log, carId, |log| - 1) by {
        assert carId !in CarIds(prefix);
        assert forall j :: 0 <= j < |prefix| ==> prefix[j] in prefix;
      }
    } else {
      CarFirstEntry(prefix, carId);
      var es' := GetCarIdLogs(prefix, carId);
      var i :| FirstOf(prefix, carId, i) && prefix[i] == es'[0];
      assert FirstOf(log, carId, i) && log[i] == GetCarIdLogs(log, carId)[0] by {
        assert GetCarIdLogs(log, carId)[0] == es'[0];
        assert forall j :: 0 <= j < i ==> log[j] == prefix[j];
      }
    }
  }

  /** The last position of a car stays its last when another car's entry is appended. */
  lemma LastOfAppend(prefix: seq<LogEntry>, last: LogEntry, carId: string, i: int)
    requires LastOf(prefix, carId, i) && last.carId != carId
    ensures LastOf(prefix + [last], carId, i) && (prefix + [last])[i] == prefix[i]
  {
  }

  /** The last of a car's entries sits at the last position of that car in the log. */
  lemma {:induction false} CarLastEntry(log: seq<LogEntry>, carId: string)
    requires GetCarIdLogs(log, carId) != []
    ensures exists i :: LastOf(log, carId, i)
                        && log[i] == GetCarIdLogs(log, carId)[|GetCarIdLogs(log, carId)| - 1]
    decreases |log|
  {
    var prefix, last := log[..|log| - 1], log[|log| - 1];
    assert log == prefix + [last];
    CarIdLogsAppend(prefix, last, carId);
    var es := GetCarIdLogs(log, carId);
    if last.carId == carId {
      assert LastOf(log, carId, |log| - 1) && log[|log| - 1] == es[|es| - 1];
    } else {
      CarLastEntry(prefix, carId);
      var es' := GetCarIdLogs(prefix, carId);
      var i :| LastOf(prefix, carId, i) && prefix[i] == es'[|es'| - 1];
      LastOfAppend(prefix, last, carId, i);
      assert es == es';
    }
  }

  /** `getFirstLog`: the odometer reading of the car's first entry; `Optional.get()` throws for an unknown car. */
  function GetFirstLog(log: seq<LogEntry>, carId: string): (r: Result<int>)
    ensures r.Success? <==> carId in CarIds(log)
    ensures r.Failure? ==> r.error == NoSuchElement
    ensures r.Success? ==> exists i :: FirstOf(log, carId, i) && r.value == log[i].distanceCounter
  {
    var found := GetCarIdLogs(log, carId);
    if found == [] then
      Failure(NoSuchElement)
    else
      CarFirstEntry(log, carId);
      Success(found[0].distanceCounter)
  }

  /** The odometer readings of a sequence of entries (`map(LogEntry::getDistanceCounter)`). */
  function Readings(es: seq<LogEntry>): (r: seq<int>)
    ensures |r| == |es|
    ensures forall k :: 0 <= k < |es| ==> r[k] == es[k].distanceCounter
  {
    seq(|es|, k requires 0 <= k < |es| => es[k].distanceCounter)
  }

  /** `getLastLog`: the odometer reading of the car's last entry; `get(-1)` throws for an unknown car. */
  function GetLastLog(log: seq<LogEntry>, carId: string): (r: Result<int>)
    ensures r.Success? <==> carId in CarIds(log)
    ensures r.Failure? ==> r.error == IndexOutOfBounds
    ensures r.Success? ==> exists i :: LastOf(log, carId, i) && r.value == log[i].distanceCounter
  {
    var found := GetCarIdLogs(log, carId);
    var carDistanceCounters := Readings(found);
    if |carDistanceCounters| == 0 then
      Failure(IndexOutOfBounds)
    else
      var reading := carDistanceCounters[|carDistanceCounters| - 1];
      assert exists i :: LastOf(log, carId, i) && reading == log[i].distanceCounter by {
        CarLastEntry(log, carId);
        var i :| LastOf(log, carId, i) && log[i] == found[|found| - 1];
        assert reading == log[i].distanceCounter;
      }
      Success(carDistanceCounters[|carDistanceCounters| - 1])
  }

  /**
    `getMonthlyDistance`: last reading minus first reading. Java evaluates
    `getLastLog` first, so an unknown car fails with its exception.
   */
  function GetMonthlyDistance(log: seq<LogEntry>, carId: string): (r: Result<int>)
    ensures r.Success? <==> carId in CarIds(log)
    ensures r.Failure? ==> r.error == IndexOutOfBounds
    ensures r.Success? ==>
              exists i, j :: FirstOf(log, carId, i) && LastOf(log, carId, j)
                             && r.value == log[j].distanceCounter - log[i].distanceCounter
  {
    match GetLastLog(log, carId)
    case Failure(e) => Failure(e)
    case Success(last) =>
      match GetFirstLog(log, carId)
      case Failure(e) => Failure(e)
      case Success(first) => Success(last - first)
  }

  /** A car with a single entry has travelled 0 km. */
  lemma SingleEntryDistance(log: seq<LogEntry>, carId: string)
    requires |GetCarIdLogs(log, carId)| == 1
    ensures GetMonthlyDistance(log, carId) == Success(0)
  {
    var es := GetCarIdLogs(log, carId);
    assert es[0] in es;
  }

  /** The odometer readings of car `carId` never decrease along the log. */
  ghost predicate CountersNonDecreasing(log: seq<LogEntry>, carId: string) {
    forall i, j :: 0 <= i < j < |log| && log[i].carId == carId && log[j].carId == carId
                   ==> log[i].distanceCounter <= log[j].distanceCounter
  }

  /** The first entry of a car comes no later than its last entry. */
  lemma FirstBeforeLast(log: seq<LogEntry>, carId: string, i: int, j: int)
    requires FirstOf(log, carId, i) && LastOf(log, carId, j)
    ensures i <= j
  {
  }

  /** A car whose own readings never decrease has no negative monthly distance. */
  lemma MonthlyDistanceNonNegative(log: seq<LogEntry>, carId: string)
    requires CountersNonDecreasing(log, carId)
    ensures GetMonthlyDistance(log, carId).Success? ==> GetMonthlyDistance(log, carId).value >= 0
  {
    var r := GetMonthlyDistance(log, carId);
    if r.Success? {
      var i, j :| FirstOf(log, carId, i) && LastOf(log, carId, j)
                  && r.value == log[j].distanceCounter - log[i].distanceCounter;
      FirstBeforeLast(log, carId, i, j);
    }
  }

  /** The car ids of the log in log order (`map(i -> i.getCarId())`). */
  function CarIdSeq(log: seq<LogEntry>): (r: seq<string>)
    ensures forall c :: c in r <==> c in CarIds(log)
  {
    var r := seq(|log|, i requires 0 <= i < |log| => log[i].carId);
    assert forall c :: c in CarIds(log) ==> c in r by {
      forall c | c in CarIds(log) ensures c in r {
        var k :| 0 <= k < |log| && log[k].carId == c;
        assert r[k] == c;
      }
    }
    r
  }

  /** `map(i -> i.getCarId()).distinct()` lists every car of the log once. */
  lemma DistinctCarIds(log: seq<LogEntry>)
    ensures |Distinct(CarIdSeq(log))| == |CarIds(log)|
  {
    DistinctCard(CarIdSeq(log));
    assert (set c | c in CarIdSeq(log)) == CarIds(log);
  }

  /** `createCarIdDistanceMap`: every car of the log mapped to its monthly distance. */
  function CreateCarIdDistanceMap(log: seq<LogEntry>): (m: map<string, int>)
    ensures m.Keys == CarIds(log)
    ensures forall c :: c in m ==> GetMonthlyDistance(log, c) == Success(m[c])
  {
    var ids := Distinct(CarIdSeq(log));
    assert forall c :: c in ids <==> c in CarIds(log);
    map c | c in ids :: GetMonthlyDistance(log, c).value
  }

  /** One line per id of `ids`, in that order, with the distance `m` gives it. */
  function LinesOf(ids: seq<string>, m: map<string, int>): (lines: seq<DistanceLine>)
    requires forall c :: c in ids ==> c in m
    ensures |lines| == |ids|
    ensures forall i :: 0 <= i < |ids| ==> lines[i] == DistanceLine(ids[i], m[ids[i]])
    ensures forall l :: l in lines ==> l.carId in ids && l.distance == m[l.carId]
    ensures forall c :: c in ids ==> DistanceLine(c, m[c]) in lines
  {
    var lines := seq(|ids|, i requires 0 <= i < |ids| => DistanceLine(ids[i], m[ids[i]]));
    assert forall c :: c in ids ==> DistanceLine(c, m[c]) in lines by {
      forall c | c in ids ensures DistanceLine(c, m[c]) in lines {
        var k :| 0 <= k < |ids| && ids[k] == c;
        assert lines[k] == DistanceLine(c, m[c]);
      }
    }
    lines
  }

  /**
    `getMonthlyDistances`: one "<carId> <distance> km" line per car of the log.
    The Java code lists the lines in `HashMap` order; this model lists them in
    first-seen order, and its contract says nothing about the order.
   */
  function GetMonthlyDistances(log: seq<LogEntry>): (lines: seq<DistanceLine>)
    ensures |lines| == |CarIds(log)|
  {
    DistinctCarIds(log);
    LinesOf(Distinct(CarIdSeq(log)), CreateCarIdDistanceMap(log))
  }

  /** Every line of the monthly report holds its car's monthly distance. */
  lemma MonthlyDistancesValues(log: seq<LogEntry>)
    ensures forall l :: l in GetMonthlyDistances(log) ==> GetMonthlyDistance(log, l.carId) == Success(l.distance)
  {
    var ids := Distinct(CarIdSeq(log));
    var m := CreateCarIdDistanceMap(log);
    var lines := GetMonthlyDistances(log);
    assert lines == LinesOf(ids, m);
    forall l | l in lines ensures GetMonthlyDistance(log, l.carId) == Success(l.distance) {
      assert l.carId in m && l.distance == m[l.carId];
    }
  }

  /** No car appears on two lines of the monthly report. */
  lemma MonthlyDistancesDistinctCars(log: seq<LogEntry>)
    ensures forall i, j :: 0 <= i < j < |GetMonthlyDistances(log)| ==>
              GetMonthlyDistances(log)[i].carId != GetMonthlyDistances(log)[j].carId
  {
    var ids := Distinct(CarIdSeq(log));
    var m := CreateCarIdDistanceMap(log);
    var lines := GetMonthlyDistances(log);
    assert lines == LinesOf(ids, m);
    assert NoDuplicates(ids);
    forall i, j | 0 <= i < j < |lines| ensures lines[i].carId != lines[j].carId {
      assert lines[i].carId == ids[i] && lines[j].carId == ids[j];
      assert ids[i] != ids[j];
    }
  }

  /** Every car of the log has a line in the monthly report, with its monthly distance. */
  lemma MonthlyDistancesCoverCars(log: seq<LogEntry>)
    ensures forall c :: c in CarIds(log) ==> DistanceLine(c, GetMonthlyDistance(log, c).value) in GetMonthlyDistances(log)
  {
    var ids := Distinct(CarIdSeq(log));
    var m := CreateCarIdDistanceMap(log);
    var lines := GetMonthlyDistances(log);
    assert lines == LinesOf(ids, m);
    forall c | c in CarIds(log) ensures DistanceLine(c, GetMonthlyDistance(log, c).value) in lines {
      assert c in ids;
      assert GetMonthlyDistance(log, c) == Success(m[c]);
    }
  }

  // ---------------------------------------------------------------------------
  // getLongestDistancePerUser

  /**
    The positional pairing of `createPairPerUser`: entries (0, 1), (2, 3), ...
    of one user become one trip each; an odd trailing entry is dropped.
   */
  function PairUp(userId: int, es: seq<LogEntry>): seq<Pair>
    decreases |es|
  {
    if |es| < 2 then []
    else [Pair(userId, es[1].distanceCounter - es[0].distanceCounter)] + PairUp(userId, es[2..])
  }

  /** `n` entries give `n / 2` trips; trip `k` is reading `2k + 1` minus reading `2k`, so an odd trailing entry is dropped. */
  lemma {:induction false} PairUpIndex(userId: int, es: seq<LogEntry>)
    ensures |PairUp(userId, es)| == |es| / 2
    ensures forall k :: 0 <= k < |es| / 2 ==>
              PairUp(userId, es)[k] == Pair(userId, es[2 * k + 1].distanceCounter - es[2 * k].distanceCounter)
    decreases |es|
  {
    if |es| >= 2 {
      var r, rest := PairUp(userId, es), PairUp(userId, es[2..]);
      PairUpIndex(userId, es[2..]);
      forall k | 1 <= k < |es| / 2
        ensures r[k] == Pair(userId, es[2 * k + 1].distanceCounter - es[2 * k].distanceCounter)
      {
        assert r[k] == rest[k - 1];
        assert es[2..][2 * (k - 1)] == es[2 * k] && es[2..][2 * (k - 1) + 1] == es[2 * k + 1];
      }
    }
  }

  /** Two more entries after an even number of entries add one trip at the end. */
  lemma {:induction false} PairUpSnocTrip(userId: int, es: seq<LogEntry>, checkout: LogEntry, checkin: LogEntry)
    requires |es| % 2 == 0
    ensures PairUp(userId, es + [checkout, checkin])
            == PairUp(userId, es) + [Pair(userId, checkin.distanceCounter - checkout.distanceCounter)]
    decreases |es|
  {
    if es == [] {
      assert (es + [checkout, checkin])[2..] == [];
    } else {
      assert (es + [checkout, checkin])[2..] == es[2..] + [checkout, checkin];
      PairUpSnocTrip(userId, es[2..], checkout, checkin);
    }
  }

  /** An entry after an even number of entries adds no trip. */
  lemma {:induction false} PairUpSnocOdd(userId: int, es: seq<LogEntry>, e: LogEntry)
    requires |es| % 2 == 0
    ensures PairUp(userId, es + [e]) == PairUp(userId, es)
    decreases |es|
  {
    if es != [] {
      assert (es + [e])[2..] == es[2..] + [e];
      PairUpSnocOdd(userId, es[2..], e);
    }
  }

  /** One loop step of `createPairPerUser`: the prefix grown by two entries has one more trip. */
  lemma PairUpPrefixStep(userId: int, es: seq<LogEntry>, i: int)
    requires 0 <= i && i + 2 <= |es| && i % 2 == 0
    ensures PairUp(userId, es[..i + 2])
            == PairUp(userId, es[..i]) + [Pair(userId, es[i + 1].distanceCounter - es[i].distanceCounter)]
  {
    assert es[..i + 2] == es[..i] + [es[i], es[i + 1]];
    PairUpSnocTrip(userId, es[..i], es[i], es[i + 1]);
  }

  /** After the loop of `createPairPerUser`: a trailing odd entry adds no trip. */
  lemma PairUpPrefixEnd(userId: int, es: seq<LogEntry>, i: int)
    requires i == |es| - |es| % 2
    ensures PairUp(userId, es) == PairUp(userId, es[..i])
  {
    if |es| % 2 == 1 {
      assert es == es[..i] + [es[|es| - 1]];
      PairUpSnocOdd(userId, es[..i], es[|es| - 1]);
    } else {
      assert es == es[..i];
    }
  }

  /** The trips of one user: that user's entries in log order, paired by position. */
  function UserTrips(log: seq<LogEntry>, userId: int): seq<Pair> {
    PairUp(userId, CreateUserIdEntries(log, userId))
  }

  /** Every trip of a user is attributed to that user. */
  lemma UserTripsOfUser(log: seq<LogEntry>, userId: int)
    ensures |UserTrips(log, userId)| == |CreateUserIdEntries(log, userId)| / 2
    ensures forall p :: p in UserTrips(log, userId) ==> p.left == userId
  {
    var trips := UserTrips(log, userId);
    PairUpIndex(userId, CreateUserIdEntries(log, userId));
    forall p | p in trips ensures p.left == userId {
      var k :| 0 <= k < |trips| && trips[k] == p;
    }
  }

  /** `createPairPerUser`: the loop over `i = 0, 2, ...` below `lastIndex`. */
  method CreatePairPerUser(log: seq<LogEntry>, userId: int) returns (pairs: seq<Pair>)
    ensures pairs == UserTrips(log, userId)
  {
    var userIdEntries := CreateUserIdEntries(log, userId);
    var size := |userIdEntries|;
    var lastIndex := if size % 2 == 0 then size else size - 1;
    pairs := [];
    var i := 0;
    while i < lastIndex
      invariant 0 <= i <= lastIndex && i % 2 == 0
      invariant pairs == PairUp(userId, userIdEntries[..i])
    {
      var distance := userIdEntries[i + 1].distanceCounter - userIdEntries[i].distanceCounter;
      PairUpPrefixStep(userId, userIdEntries, i);
      pairs := pairs + [Pair(userId, distance)];
      i := i + 2;
    }
    PairUpPrefixEnd(userId, userIdEntries, i);
  }

  /**
    `pairs` holds the trips of every user not in `pending`, each as often as
    among that user's trips, and no trip of a user in `pending`.
   */
  ghost predicate CollectedExcept(log: seq<LogEntry>, pairs: seq<Pair>, pending: seq<int>) {
    forall p :: multiset(pairs)[p] == if p.left in pending then 0 else multiset(UserTrips(log, p.left))[p]
  }

  /** Appending the trips of the first pending user collects that user. */
  lemma CollectUser(log: seq<LogEntry>, pairs: seq<Pair>, pending: seq<int>)
    requires pending != [] && NoDuplicates(pending)
    requires CollectedExcept(log, pairs, pending)
    ensures CollectedExcept(log, pairs + UserTrips(log, pending[0]), pending[1..])
  {
    var userId, trips := pending[0], UserTrips(log, pending[0]);
    UserTripsOfUser(log, userId);
    assert multiset(pairs + trips) == multiset(pairs) + multiset(trips);
    assert userId !in pending[1..] by {
      forall k | 0 <= k < |pending[1..]| ensures pending[1..][k] != userId {
        assert pending[1..][k] == pending[k + 1];
      }
    }
    forall p ensures multiset(pairs + trips)[p]
                     == if p.left in pending[1..] then 0 else multiset(UserTrips(log, p.left))[p]
    {
      assert p.left in pending <==> p.left == userId || p.left in pending[1..];
      if p.left != userId {
        assert p !in trips;
      }
    }
  }

  /**
    The order in which a `HashSet` of the users hands them out. Java leaves it
    unspecified; this model takes first-seen order, and nothing below depends
    on it.
   */
  function UserOrder(log: seq<LogEntry>): (r: seq<int>)
    ensures NoDuplicates(r)
    ensures forall u :: u in r <==> u in GetUsers(log)
  {
    var ids := seq(|log|, i requires 0 <= i < |log| => log[i].userId);
    assert forall u :: u in GetUsers(log) ==> u in ids by {
      forall u | u in GetUsers(log) ensures u in ids {
        var k :| 0 <= k < |log| && log[k].userId == u;
        assert ids[k] == u;
      }
    }
    Distinct(ids)
  }

  /**
    `createPairs`: the trips of every user of `getUsers()`, appended user after
    user. `order` is the order in which the `HashSet` hands the users out,
    which Java leaves unspecified: any listing of exactly the log's users, each
    once. For every such order, each trip occurs in the result exactly as often
    as among its user's trips.
   */
  method CreatePairs(log: seq<LogEntry>, order: seq<int>) returns (pairs: seq<Pair>)
    requires NoDuplicates(order) && forall u :: u in order <==> u in GetUsers(log)
    ensures CollectedExcept(log, pairs, [])
  {
    pairs := [];
    var users := order;
    while users != []
      invariant NoDuplicates(users)
      invariant CollectedExcept(log, pairs, users)
      decreases |users|
    {
      var userPairs := CreatePairPerUser(log, users[0]);
      CollectUser(log, pairs, users);
      pairs := pairs + userPairs;
      users := users[1..];
    }
  }

  /** The collected trips are exactly the trips of the users, and there are some exactly when some user has two entries. */
  lemma CollectedTrips(log: seq<LogEntry>, pairs: seq<Pair>)
    requires CollectedExcept(log, pairs, [])
    ensures forall p :: p in pairs <==> p in UserTrips(log, p.left)
    ensures pairs == [] <==> forall u :: |CreateUserIdEntries(log, u)| < 2
  {
    forall p ensures p in pairs <==> p in UserTrips(log, p.left) {
      assert multiset(pairs)[p] == multiset(UserTrips(log, p.left))[p];
    }
    forall u | |CreateUserIdEntries(log, u)| >= 2 ensures pairs != [] {
      var p := UserTrips(log, u)[0];
      UserTripsOfUser(log, u);
      assert p in UserTrips(log, p.left);
    }
    if pairs != [] {
      var p := pairs[0];
      assert p in UserTrips(log, p.left);
    }
  }

  /**
    `max(Comparator.comparing(Pair::getRight))` on a non-empty list: a pair of
    largest distance (ties keep the earlier pair, as `BinaryOperator.maxBy` does).
   */
  function MaxByRight(pairs: seq<Pair>): (m: Pair)
    requires pairs != []
    ensures m in pairs
    ensures forall q :: q in pairs ==> q.right <= m.right
    decreases |pairs|
  {
    if |pairs| == 1 then pairs[0]
    else
      var prefix, last := pairs[..|pairs| - 1], pairs[|pairs| - 1];
      assert pairs == prefix + [last];
      var best := MaxByRight(prefix);
      if best.right >= last.right then best else last
  }

  /**
    `getMaxDistancePair`: a trip of largest distance among all users' trips;
    `Optional.get()` throws when no user has a completed trip.
   */
  method GetMaxDistancePair(log: seq<LogEntry>) returns (r: Result<Pair>)
    ensures r.Failure? <==> forall u :: |CreateUserIdEntries(log, u)| < 2
    ensures r.Failure? ==> r.error == NoSuchElement
    ensures r.Success? ==> r.value in UserTrips(log, r.value.left)
    ensures r.Success? ==> forall u, q :: q in UserTrips(log, u) ==> q.right <= r.value.right
  {
    var pairs := CreatePairs(log, UserOrder(log));
    CollectedTrips(log, pairs);
    if pairs == [] {
      r := Failure(NoSuchElement);
    } else {
      var best := MaxByRight(pairs);
      forall u, q | q in UserTrips(log, u) ensures q.right <= best.right {
        UserTripsOfUser(log, u);
        assert q in pairs;
      }
      r := Success(best);
    }
  }

  /** `getLongestDistancePerUser`: the distance and user of a longest trip. */
  method GetLongestDistancePerUser(log: seq<LogEntry>) returns (r: Result<LongestTripLine>)
    ensures r.Failure? <==> forall u :: |CreateUserIdEntries(log, u)| < 2
    ensures r.Failure? ==> r.error == NoSuchElement
    ensures r.Success? ==> Pair(r.value.userId, r.value.distance) in UserTrips(log, r.value.userId)
    ensures r.Success? ==> forall u, q :: q in UserTrips(log, u) ==> q.right <= r.value.distance
  {
    var pair := GetMaxDistancePair(log);
    match pair
    case Failure(e) =>
      r := Failure(e);
    case Success(p) =>
      r := Success(LongestTripLine(p.right, p.left));
  }

  // ---------------------------------------------------------------------------
  // getItinerary

  /** `printLog(out, in)`: one completed trip. */
  function PrintTrip(checkout: LogEntry, checkin: LogEntry): ItineraryLine {
    TripLine(checkout.userId, checkout.date, checkout.distanceCounter, checkin.date, checkin.distanceCounter)
  }

  /** `printLog(out)`: a checkout with no later entry. */
  function PrintOpen(checkout: LogEntry): ItineraryLine {
    OpenLine(checkout.userId, checkout.date, checkout.distanceCounter)
  }

  /**
    The itinerary of a car's entries: entries (2k, 2k + 1) become trip line k,
    and an odd trailing entry becomes one final open line.
   */
  function Itinerary(es: seq<LogEntry>): seq<ItineraryLine>
    decreases |es|
  {
    if |es| == 0 then []
    else if |es| == 1 then [PrintOpen(es[0])]
    else [PrintTrip(es[0], es[1])] + Itinerary(es[2..])
  }

  /** `n` entries give `(n + 1) / 2` lines. */
  lemma {:induction false} ItineraryLength(es: seq<LogEntry>)
    ensures |Itinerary(es)| == (|es| + 1) / 2
    decreases |es|
  {
    if |es| >= 2 {
      ItineraryLength(es[2..]);
    }
  }

  /** Line `k < n / 2` of the itinerary is the trip of entries `2k` and `2k + 1`. */
  lemma {:induction false} ItineraryTrips(es: seq<LogEntry>)
    ensures |Itinerary(es)| == (|es| + 1) / 2
    ensures forall k :: 0 <= k < |es| / 2 ==> Itinerary(es)[k] == PrintTrip(es[2 * k], es[2 * k + 1])
    decreases |es|
  {
    ItineraryLength(es);
    if |es| >= 2 {
      var r, rest := Itinerary(es), Itinerary(es[2..]);
      ItineraryTrips(es[2..]);
      forall k | 1 <= k < |es| / 2 ensures r[k] == PrintTrip(es[2 * k], es[2 * k + 1]) {
        assert r[k] == rest[k - 1];
        assert es[2..][2 * (k - 1)] == es[2 * k] && es[2..][2 * (k - 1) + 1] == es[2 * k + 1];
      }
    }
  }

  /** The itinerary has an open line exactly when the count of entries is odd: its last line, for entry `n - 1`. */
  lemma {:induction false} ItineraryOpen(es: seq<LogEntry>)
    ensures |es| % 2 == 1 ==> Itinerary(es)[|Itinerary(es)| - 1] == PrintOpen(es[|es| - 1])
    ensures forall k :: 0 <= k < |Itinerary(es)| ==>
              (Itinerary(es)[k].OpenLine? <==> |es| % 2 == 1 && k == |Itinerary(es)| - 1)
    decreases |es|
  {
    if |es| >= 2 {
      var r, rest := Itinerary(es), Itinerary(es[2..]);
      ItineraryLength(es);
      ItineraryLength(es[2..]);
      ItineraryOpen(es[2..]);
      forall k | 1 <= k < |r| ensures r[k].OpenLine? <==> |es| % 2 == 1 && k == |r| - 1 {
        assert r[k] == rest[k - 1];
      }
      if |es| % 2 == 1 {
        assert r[|r| - 1] == rest[|rest| - 1];
        assert es[2..][|es[2..]| - 1] == es[|es| - 1];
      }
    }
  }

  /** One loop step of `getItinerary`: the prefix grown by two entries has one more trip line. */
  lemma ItineraryPrefixStep(es: seq<LogEntry>, i: int)
    requires 0 <= i && i + 2 <= |es| && i % 2 == 0
    ensures Itinerary(es[..i + 2]) == Itinerary(es[..i]) + [PrintTrip(es[i], es[i + 1])]
  {
    assert es[..i + 2] == es[..i] + [es[i], es[i + 1]];
    ItinerarySnocTrip(es[..i], es[i], es[i + 1]);
  }

  /** After the loop of `getItinerary`: the even prefix, then an open line exactly when an entry is left over. */
  lemma ItineraryPrefixEnd(es: seq<LogEntry>, i: int)
    requires i == |es| - |es| % 2
    ensures |es| % 2 == 0 ==> Itinerary(es) == Itinerary(es[..i])
    ensures |es| % 2 == 1 ==> Itinerary(es) == Itinerary(es[..i]) + [PrintOpen(es[|es| - 1])]
  {
    if |es| % 2 == 1 {
      assert Itinerary(es) == Itinerary(es[..i]) + [PrintOpen(es[|es| - 1])] by {
        assert es == es[..i] + [es[|es| - 1]];
        ItinerarySnocOpen(es[..i], es[|es| - 1]);
      }
    } else {
      assert es == es[..i];
    }
  }

  /** A checkout and check-in after an even number of entries add one trip line at the end. */
  lemma {:induction false} ItinerarySnocTrip(es: seq<LogEntry>, checkout: LogEntry, checkin: LogEntry)
    requires |es| % 2 == 0
    ensures Itinerary(es + [checkout, checkin]) == Itinerary(es) + [PrintTrip(checkout, checkin)]
    decreases |es|
  {
    if es == [] {
      assert (es + [checkout, checkin])[2..] == [];
    } else {
      assert (es + [checkout, checkin])[2..] == es[2..] + [checkout, checkin];
      ItinerarySnocTrip(es[2..], checkout, checkin);
    }
  }

  /** A trailing entry after an even number of entries adds one open line at the end. */
  lemma {:induction false} ItinerarySnocOpen(es: seq<LogEntry>, checkout: LogEntry)
    requires |es| % 2 == 0
    ensures Itinerary(es + [checkout]) == Itinerary(es) + [PrintOpen(checkout)]
    decreases |es|
  {
    if es != [] {
      assert (es + [checkout])[2..] == es[2..] + [checkout];
      ItinerarySnocOpen(es[2..], checkout);
    }
  }

  /** `getItinerary`: the trip loop below `lastIndex`, then the trailing open checkout. */
  method GetItinerary(log: seq<LogEntry>, carId: string) returns (lines: seq<ItineraryLine>)
    ensures lines == Itinerary(GetCarIdLogs(log, carId))
    ensures lines == [] <==> carId !in CarIds(log)
  {
    lines := [];
    var carIdLogs := GetCarIdLogs(log, carId);
    var size := |carIdLogs|;
    var lastIndex := if size % 2 == 0 then size else size - 1;
    var i := 0;
    while i < lastIndex
      invariant 0 <= i <= lastIndex && i % 2 == 0
      invariant lines == Itinerary(carIdLogs[..i])
    {
      ItineraryPrefixStep(carIdLogs, i);
      lines := lines + [PrintTrip(carIdLogs[i], carIdLogs[i + 1])];
      i := i + 2;
    }
    ItineraryPrefixEnd(carIdLogs, i);
    if size % 2 > 0 {
      lines := lines + [PrintOpen(carIdLogs[size - 1])];
    }
    assert lines == [] <==> carId !in CarIds(log) by {
      ItineraryLength(carIdLogs);
    }
  }
}
