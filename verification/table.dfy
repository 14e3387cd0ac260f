/** The body of an arrivals or departures table: one row of five cells per
    display row, or a single placeholder row when the bucket is empty. */
module Table {

  import opened Model
  import opened StationView

  /** Which counterpart station the second column shows. */
  datatype Mode = ArrivalMode | DepartMode

  datatype TableRow = DataRow(cells: seq<string>) | PlaceholderRow(colspan: nat, text: string)

  const Columns: nat := 5
  const NoTrains: string := "Ei junia"

  /** The cells of one row: train, origin (arrivals) or destination
      (departures), scheduled time, actual time, delay. */
  function Cells(item: ScheduleRow, mode: Mode): seq<string> {
    [item.trainName,
     if mode == ArrivalMode then item.origin else item.destination,
     item.scheduled,
     item.actual,
     item.diff]
  }

  /** Each data row's markup is non-empty, so the joined markup is empty
      exactly when there is no data; then the body is one placeholder row
      spanning all columns. */
  function TableBody(data: seq<ScheduleRow>, mode: Mode): (rows: seq<TableRow>)
    ensures |rows| >= 1
    ensures rows == [PlaceholderRow(Columns, NoTrains)] <==> |data| == 0
  {
    if |data| == 0 then [PlaceholderRow(Columns, NoTrains)]
    else
      var rows := seq(|data|, k requires 0 <= k < |data| => DataRow(Cells(data[k], mode)));
      assert rows[0].DataRow?;
      rows
  }

  /** Number of data rows in a table body. */
  function CountData(rows: seq<TableRow>): nat {
    if |rows| == 0 then 0 else (if rows[0].DataRow? then 1 else 0) + CountData(rows[1..])
  }

  lemma {:induction false} CountDataAll(rows: seq<TableRow>)
    requires forall k :: 0 <= k < |rows| ==> rows[k].DataRow?
    ensures CountData(rows) == |rows|
    decreases |rows|
  {
    if |rows| > 0 {
      CountDataAll(rows[1..]);
    }
  }

  /** Every display row is shown exactly once and in order; a placeholder
      appears only for an empty bucket. */
  lemma TableBodyShowsEveryRow(data: seq<ScheduleRow>, mode: Mode)
    ensures CountData(TableBody(data, mode)) == |data|
    ensures |data| > 0 ==> |TableBody(data, mode)| == |data|
    ensures |data| > 0 ==> forall k :: 0 <= k < |data| ==>
      TableBody(data, mode)[k].DataRow? && TableBody(data, mode)[k].cells[0] == data[k].trainName
  {
    if |data| > 0 {
      CountDataAll(TableBody(data, mode));
    }
  }

  /** The two tables of the station view. */
  function StationTables(v: View): (t: (seq<TableRow>, seq<TableRow>)) {
    (TableBody(v.arriving, ArrivalMode), TableBody(v.departing, DepartMode))
  }

  /** The arrivals table names each train's origin, the departures table its destination. */
  lemma TablesShowCounterparts(v: View)
    ensures var (arr, dep) := StationTables(v);
      && (forall k :: 0 <= k < |v.arriving| ==> arr[k].DataRow? && arr[k].cells[1] == v.arriving[k].origin)
      && (forall k :: 0 <= k < |v.departing| ==> dep[k].DataRow? && dep[k].cells[1] == v.departing[k].destination)
  {
  }
}
