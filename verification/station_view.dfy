/** The station view: every train of the live list is reduced to at most one
    display row, placed in the arrivals or the departures bucket. */
module StationView {

  import opened Optional
  import opened Text
  import opened Seqs
  import opened Model
  import opened Catalogue
  import opened Delay

  /** The row the lookup accepts: at the queried station and a commercial stop. */
  predicate IsStopAt(row: TimeTableRow, code: string) {
    row.stationShortCode == code && row.commercialStop
  }

  function StopsAt(code: string): TimeTableRow -> bool {
    (row: TimeTableRow) => IsStopAt(row, code)
  }

  /** Position of the first commercial stop at `code` in the train's route;
      later rows for the same station are never looked at. */
  function MatchIndex(t: Train, code: string): (r: Option<nat>)
    ensures r.Some? ==> r.value < |t.timeTableRows| && IsStopAt(t.timeTableRows[r.value], code)
    ensures r.Some? ==> forall j :: 0 <= j < r.value ==> !IsStopAt(t.timeTableRows[j], code)
    ensures r.None? <==> forall j :: 0 <= j < |t.timeTableRows| ==> !IsStopAt(t.timeTableRows[j], code)
  {
    FirstIndex(t.timeTableRows, StopsAt(code))
  }

  function MatchedRow(t: Train, code: string): TimeTableRow
    requires MatchIndex(t, code).Some?
  {
    t.timeTableRows[MatchIndex(t, code).value]
  }

  /** The train label, "<type> <number>". */
  function TrainName(t: Train): string {
    t.trainType + " " + NatToString(t.trainNumber)
  }

  /** The train number can be read back from the label. */
  lemma TrainNameReadsBack(t: Train)
    ensures var name := TrainName(t);
      && |name| > |t.trainType| + 1
      && name[..|t.trainType| + 1] == t.trainType + " "
      && ParseNat(name[|t.trainType| + 1..]) == Some(t.trainNumber)
  {
    NatToStringRoundTrip(t.trainNumber);
    assert TrainName(t)[|t.trainType| + 1..] == NatToString(t.trainNumber);
  }

  /** The actual-time cell's text when the train has no actual time yet. */
  const NoActualTime: string := "-"

  /** The actual-time cell: the formatted time when the field is truthy, else "-".
      An absent, null or empty field is falsy. */
  function ActualText(row: TimeTableRow, fmt: string -> string): string {
    match row.actualTime
    case Some(a) => if a == "" then NoActualTime else fmt(a)
    case None => NoActualTime
  }

  /** The display row of train `t` for its matched row `row`. Origin and
      destination are the train's own endpoints. */
  function ViewRow(t: Train, row: TimeTableRow, cat: seq<Station>, fmt: string -> string): ScheduleRow
    requires |t.timeTableRows| > 0
  {
    var rows := t.timeTableRows;
    ScheduleRow(
      TrainName(t),
      StationName(cat, rows[0].stationShortCode),
      StationName(cat, rows[|rows| - 1].stationShortCode),
      fmt(row.scheduledTime),
      ActualText(row, fmt),
      FormatDiff(row.differenceInMinutes))
  }

  /** What each cell of a display row holds. */
  lemma ViewRowFields(t: Train, row: TimeTableRow, cat: seq<Station>, fmt: string -> string)
    requires |t.timeTableRows| > 0
    ensures var r := ViewRow(t, row, cat, fmt);
      && |r.trainName| > |t.trainType| + 1
      && r.trainName[..|t.trainType| + 1] == t.trainType + " "
      && ParseNat(r.trainName[|t.trainType| + 1..]) == Some(t.trainNumber)
    ensures var r := ViewRow(t, row, cat, fmt);
      var first := t.timeTableRows[0].stationShortCode;
      && (forall i :: IsFirstWithCode(cat, first, i) ==> r.origin == cat[i].stationName)
      && ((forall i :: 0 <= i < |cat| ==> cat[i].stationShortCode != first) ==> r.origin == first)
    ensures var r := ViewRow(t, row, cat, fmt);
      var last := t.timeTableRows[|t.timeTableRows| - 1].stationShortCode;
      && (forall i :: IsFirstWithCode(cat, last, i) ==> r.destination == cat[i].stationName)
      && ((forall i :: 0 <= i < |cat| ==> cat[i].stationShortCode != last) ==> r.destination == last)
    ensures var r := ViewRow(t, row, cat, fmt);
      && r.scheduled == fmt(row.scheduledTime)
      && (row.actualTime.None? || row.actualTime == Some("") ==> r.actual == NoActualTime)
      && (row.actualTime.Some? && row.actualTime.value != "" ==> r.actual == fmt(row.actualTime.value))
      && (r.diff == Placeholder <==> row.differenceInMinutes in {Undefined, Null, Number(0)})
  {
    TrainNameReadsBack(t);
  }

  /** What one train yields: the matched row's type with its display row, or
      nothing when the train has no commercial stop at the station. */
  function Entry(t: Train, code: string, cat: seq<Station>, fmt: string -> string): Option<(string, ScheduleRow)> {
    match MatchIndex(t, code)
    case None => None
    case Some(i) => Some((t.timeTableRows[i].rowType, ViewRow(t, t.timeTableRows[i], cat, fmt)))
  }

  /** The row a train adds to the bucket of row type `kind`, if any. */
  function Pick(code: string, cat: seq<Station>, fmt: string -> string, kind: string): Train -> Option<ScheduleRow> {
    (t: Train) =>
      if ContributesTo(t, code, kind) then Some(ViewRow(t, MatchedRow(t, code), cat, fmt)) else None
  }

  /** The bucket of row type `kind`, as a functional reference definition. */
  function Bucket(trains: seq<Train>, code: string, cat: seq<Station>, fmt: string -> string, kind: string): seq<ScheduleRow> {
    FilterMap(trains, Pick(code, cat, fmt, kind))
  }

  /** Train `t` belongs in the bucket of `kind` at station `code`. */
  predicate ContributesTo(t: Train, code: string, kind: string) {
    MatchIndex(t, code).Some? && MatchedRow(t, code).rowType == kind
  }

  /** What `if (row.type === kind) bucket.push(obj)` appends for one train's entry. */
  function Pushed(e: Option<(string, ScheduleRow)>, kind: string): seq<ScheduleRow> {
    if e.Some? && e.value.0 == kind then [e.value.1] else []
  }

  datatype View = View(arriving: seq<ScheduleRow>, departing: seq<ScheduleRow>)

  /** The classification loop of the station view: one pass over the trains,
      pushing each train's display row onto the bucket its matched row's type names. */
  method RenderStationView(trains: seq<Train>, code: string, cat: seq<Station>, fmt: string -> string)
    returns (v: View)
    ensures v.arriving == Bucket(trains, code, cat, fmt, ARRIVAL)
    ensures v.departing == Bucket(trains, code, cat, fmt, DEPARTURE)
    ensures |v.arriving| + |v.departing| <= |trains|
  {
    var arriving: seq<ScheduleRow> := [];
    var departing: seq<ScheduleRow> := [];
    var i := 0;
    assert |ARRIVAL| != |DEPARTURE|;
    while i < |trains|
      invariant 0 <= i <= |trains|
      invariant arriving == Bucket(trains[..i], code, cat, fmt, ARRIVAL)
      invariant departing == Bucket(trains[..i], code, cat, fmt, DEPARTURE)
      invariant |arriving| + |departing| <= i
    {
      var e := Entry(trains[i], code, cat, fmt);
      BucketStep(trains, i, code, cat, fmt, ARRIVAL);
      BucketStep(trains, i, code, cat, fmt, DEPARTURE);
      arriving := arriving + Pushed(e, ARRIVAL);
      departing := departing + Pushed(e, DEPARTURE);
      i := i + 1;
    }
    assert trains[..|trains|] == trains;
    v := View(arriving, departing);
  }

  /** Extending the train list by one train extends each bucket by that train's row, if any. */
  lemma BucketStep(trains: seq<Train>, i: nat, code: string, cat: seq<Station>, fmt: string -> string, kind: string)
    requires i < |trains|
    ensures Bucket(trains[..i + 1], code, cat, fmt, kind)
      == Bucket(trains[..i], code, cat, fmt, kind) + Pushed(Entry(trains[i], code, cat, fmt), kind)
  {
    assert trains[..i + 1][..i] == trains[..i];
    assert trains[..i + 1][i] == trains[i];
  }

  /** A train has a row in a bucket iff its first commercial stop at the
      station has the bucket's type. */
  lemma {:induction false} BucketMembership(trains: seq<Train>, code: string, cat: seq<Station>, fmt: string -> string, kind: string)
    ensures forall i :: 0 <= i < |trains| ==>
      (ContributesTo(trains[i], code, kind) <==> i in Kept(trains, Pick(code, cat, fmt, kind)))
  {
    KeptComplete(trains, Pick(code, cat, fmt, kind));
  }

  /** A bucket holds one row per selected train, in train order. */
  lemma {:induction false} BucketOrder(trains: seq<Train>, code: string, cat: seq<Station>, fmt: string -> string, kind: string)
    ensures |Bucket(trains, code, cat, fmt, kind)| == |Kept(trains, Pick(code, cat, fmt, kind))|
    ensures StrictlyIncreasing(Kept(trains, Pick(code, cat, fmt, kind)))
  {
    KeptInOrder(trains, Pick(code, cat, fmt, kind));
    FilterMapAt(trains, Pick(code, cat, fmt, kind));
  }

  /** The k-th row of a bucket belongs to the k-th selected train: it names
      that train's first and last stations, whichever row matched, and carries
      the matched row's times and delay. */
  lemma {:induction false} BucketRows(trains: seq<Train>, code: string, cat: seq<Station>, fmt: string -> string, kind: string)
    ensures var idx := Kept(trains, Pick(code, cat, fmt, kind));
      var b := Bucket(trains, code, cat, fmt, kind);
      && |b| == |idx|
      && forall k :: 0 <= k < |idx| ==>
        && idx[k] < |trains|
        && ContributesTo(trains[idx[k]], code, kind)
        && var t := trains[idx[k]];
           var rows := t.timeTableRows;
           var row := MatchedRow(t, code);
           && b[k].trainName == TrainName(t)
           && b[k].origin == StationName(cat, rows[0].stationShortCode)
           && b[k].destination == StationName(cat, rows[|rows| - 1].stationShortCode)
           && b[k].scheduled == fmt(row.scheduledTime)
           && b[k].actual == ActualText(row, fmt)
           && b[k].diff == FormatDiff(row.differenceInMinutes)
  {
    KeptInOrder(trains, Pick(code, cat, fmt, kind));
    FilterMapAt(trains, Pick(code, cat, fmt, kind));
  }

  /** No train appears in both buckets, a train without a commercial stop at
      the station appears in neither, and one whose matched row has another
      type is skipped as well. */
  lemma {:induction false} BucketsPartitionTrains(trains: seq<Train>, code: string, cat: seq<Station>, fmt: string -> string)
    ensures var arr := Kept(trains, Pick(code, cat, fmt, ARRIVAL));
      var dep := Kept(trains, Pick(code, cat, fmt, DEPARTURE));
      forall i :: 0 <= i < |trains| ==>
        && !(i in arr && i in dep)
        && ((i in arr || i in dep) <==>
              MatchIndex(trains[i], code).Some?
              && (MatchedRow(trains[i], code).rowType == ARRIVAL || MatchedRow(trains[i], code).rowType == DEPARTURE))
  {
    BucketMembership(trains, code, cat, fmt, ARRIVAL);
    BucketMembership(trains, code, cat, fmt, DEPARTURE);
  }
}
