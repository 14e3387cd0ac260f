/** The station catalogue: the code-to-name lookup used for a train's
    endpoints, the passenger-station option list of the station picker, and
    the search box that hides non-matching options. */
module Catalogue {

  import opened Optional
  import opened Text
  import opened Seqs
  import opened Model

  function HasCode(code: string): Station -> bool {
    (st: Station) => st.stationShortCode == code
  }

  /** Position of the first catalogue station with short code `code`. */
  function FindStation(cat: seq<Station>, code: string): (r: Option<nat>)
    ensures r.Some? ==> r.value < |cat| && cat[r.value].stationShortCode == code
    ensures r.Some? ==> forall j :: 0 <= j < r.value ==> cat[j].stationShortCode != code
    ensures r.None? <==> forall j :: 0 <= j < |cat| ==> cat[j].stationShortCode != code
  {
    FirstIndex(cat, HasCode(code))
  }

  ghost predicate IsFirstWithCode(cat: seq<Station>, code: string, i: int) {
    && 0 <= i < |cat|
    && cat[i].stationShortCode == code
    && forall j :: 0 <= j < i ==> cat[j].stationShortCode != code
  }

  /** The display name for a short code: the name of the first station with
      that code, or the code itself when the catalogue has no such station. */
  function StationName(cat: seq<Station>, code: string): (name: string)
    ensures forall i :: IsFirstWithCode(cat, code, i) ==> name == cat[i].stationName
    ensures (forall i :: 0 <= i < |cat| ==> cat[i].stationShortCode != code) ==> name == code
  {
    match FindStation(cat, code)
    case Some(i) => cat[i].stationName
    case None => code
  }

  ghost predicate UniqueCodes(cat: seq<Station>) {
    forall i, j :: 0 <= i < j < |cat| ==> cat[i].stationShortCode != cat[j].stationShortCode
  }

  /** With unique short codes the lookup returns each station's own name. */
  lemma StationNameOfMember(cat: seq<Station>, i: nat)
    requires UniqueCodes(cat)
    requires i < |cat|
    ensures StationName(cat, cat[i].stationShortCode) == cat[i].stationName
  {
    assert IsFirstWithCode(cat, cat[i].stationShortCode, i);
  }

  /** An `<option>` of the station picker: its value and its text. */
  datatype StationOption = StationOption(value: string, text: string)

  function OptionOf(st: Station): StationOption {
    StationOption(st.stationShortCode, st.stationName + " (" + st.stationShortCode + ")")
  }

  function IsPassenger(st: Station): bool {
    st.passengerTraffic
  }

  /** The catalogue stations open to passenger traffic, in catalogue order. */
  function PassengerStations(cat: seq<Station>): seq<Station> {
    FilterMap(cat, Selecting(IsPassenger))
  }

  /** The picker's options: one per passenger station, in catalogue order. */
  function PassengerOptions(cat: seq<Station>): (opts: seq<StationOption>)
    ensures |opts| <= |cat|
    ensures forall st :: st in cat && st.passengerTraffic ==> OptionOf(st) in opts
    ensures forall o :: o in opts ==> exists st :: st in cat && st.passengerTraffic && o == OptionOf(st)
  {
    var ps := PassengerStations(cat);
    PassengerStationsMembers(cat);
    var opts := seq(|ps|, k requires 0 <= k < |ps| => OptionOf(ps[k]));
    assert forall k :: 0 <= k < |ps| ==> opts[k] == OptionOf(ps[k]);
    opts
  }

  /** The passenger stations are exactly the catalogue's stations with passenger traffic. */
  lemma PassengerStationsMembers(cat: seq<Station>)
    ensures forall st :: st in cat && st.passengerTraffic ==> st in PassengerStations(cat)
    ensures forall st :: st in PassengerStations(cat) ==> st in cat && st.passengerTraffic
  {
    var f := Selecting(IsPassenger);
    var ps := PassengerStations(cat);
    var idx := Kept(cat, f);
    FilterMapExact(cat, f);
    forall st | st in cat && st.passengerTraffic
      ensures st in ps
    {
      var i :| 0 <= i < |cat| && cat[i] == st;
      assert f(cat[i]).Some?;
      var k :| 0 <= k < |idx| && idx[k] == i;
      assert ps[k] == st;
    }
    forall st | st in ps
      ensures st in cat && st.passengerTraffic
    {
      var k :| 0 <= k < |ps| && ps[k] == st;
      assert ps[k] == f(cat[idx[k]]).value;
    }
  }

  /** The option list holds exactly the passenger stations, each once, in
      catalogue order, shown as "name (code)" with the code as value. */
  lemma OptionListExact(cat: seq<Station>)
    ensures var idx := Kept(cat, Selecting(IsPassenger));
      var opts := PassengerOptions(cat);
      && |opts| == |idx|
      && StrictlyIncreasing(idx)
      && (forall i :: 0 <= i < |cat| ==> (cat[i].passengerTraffic <==> i in idx))
      && (forall k :: 0 <= k < |idx| ==>
            && idx[k] < |cat|
            && opts[k].value == cat[idx[k]].stationShortCode
            && opts[k].text == cat[idx[k]].stationName + " (" + cat[idx[k]].stationShortCode + ")")
  {
    FilterMapExact(cat, Selecting(IsPassenger));
  }

  /** A catalogue sorted by any ordering yields an option list in that order. */
  lemma OptionListKeepsOrder(cat: seq<Station>, le: (Station, Station) -> bool)
    requires SortedBy(cat, le)
    ensures SortedBy(PassengerStations(cat), le)
    ensures forall k :: 0 <= k < |PassengerOptions(cat)| ==>
      PassengerOptions(cat)[k] == OptionOf(PassengerStations(cat)[k])
  {
    FilterKeepsSorted(cat, IsPassenger, le);
  }

  /** The CSS display an option gets from the search box. */
  datatype Display = Block | Hidden

  /** An option stays visible iff its lower-cased text contains the lower-cased query. */
  predicate Visible(opt: StationOption, query: string) {
    Contains(Lower(opt.text), Lower(query))
  }

  /** The search box handler: one display value per option, in option order. */
  method FilterOptions(opts: seq<StationOption>, query: string) returns (ds: seq<Display>)
    ensures |ds| == |opts|
    ensures forall i :: 0 <= i < |opts| ==> (ds[i] == Block <==> Visible(opts[i], query))
    ensures forall i :: 0 <= i < |opts| ==>
      (ds[i] == Block <==> Occurs(Lower(opts[i].text), Lower(query)))
  {
    var txt := Lower(query);
    ds := [];
    var i := 0;
    while i < |opts|
      invariant 0 <= i <= |opts|
      invariant |ds| == i
      invariant forall j :: 0 <= j < i ==> (ds[j] == Block <==> Visible(opts[j], query))
      invariant forall j :: 0 <= j < i ==> (ds[j] == Block <==> Occurs(Lower(opts[j].text), txt))
    {
      var shown := Contains(Lower(opts[i].text), txt);
      ContainsIffOccurs(Lower(opts[i].text), txt);
      ds := ds + [if shown then Block else Hidden];
      i := i + 1;
    }
  }

  /** An empty query hides nothing. */
  lemma EmptyQueryShowsAll(opt: StationOption)
    ensures Visible(opt, "")
  {
    assert Lower("") == "";
  }

  /** Typing any piece `piece` of an option's text, in any mix of case, keeps
      the option visible. */
  lemma PieceOfTextShows(opt: StationOption, piece: string, query: string)
    requires Occurs(opt.text, piece)
    requires Lower(piece) == Lower(query)
    ensures Visible(opt, query)
  {
    var k :| OccursAt(opt.text, piece, k);
    LowerSlice(opt.text, k, k + |piece|);
    assert OccursAt(Lower(opt.text), Lower(piece), k);
    ContainsIffOccurs(Lower(opt.text), Lower(piece));
  }

  /** The query's case does not matter: the lower-cased query shows the same options. */
  lemma QueryCaseIgnored(opt: StationOption, query: string)
    ensures Visible(opt, query) <==> Visible(opt, Lower(query))
  {
    LowerIdempotent(query);
  }
}
