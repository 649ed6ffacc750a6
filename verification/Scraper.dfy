/**
 * Turning the rows of the listing table into apartment tuples
 * (ZuerichStadtwohnungen_Crawler.py, the loop of fetch_apartments).
 *
 * A row is given as its already extracted, already stripped cells; the HTTP
 * request and the HTML parsing that produce them are not part of this model.
 */
module Scraper {
  import opened Wrappers
  import opened Positions
  import opened Apartments

  /**
   * One table row: the text of each of its seven cells, if the row has that
   * cell, and its apply button: no anchor, an anchor without `href`
   * (`Some(None)`), or an anchor with `href` (`Some(Some(href))`).
   */
  datatype Row = Row(
    address: Option<string>,
    rentalGross: Option<string>,
    rooms: Option<string>,
    floor: Option<string>,
    area: Option<string>,
    moveInDate: Option<string>,
    zone: Option<string>,
    applyButton: Option<Option<string>>
  )

  /** Why a row is skipped: reading `href` of an anchor that has none raises KeyError. */
  datatype RowError = MissingHref

  /** A row that processes without raising. */
  predicate RowSurvives(row: Row)
  {
    row.applyButton != Some(None)
  }

  /** The text of a cell, or the sentinel when the row has no such cell. */
  function CellText(cell: Option<string>): string
  {
    match cell
    case Some(text) => text
    case None => NoInfo
  }

  /** The stored field `field` is what the cell holds, or the sentinel for a missing cell. */
  predicate Filled(cell: Option<string>, field: string)
  {
    match cell
    case Some(text) => field == text
    case None => field == NoInfo
  }

  /** The link stored for a row: the absolutised href, "No link", or KeyError. */
  function ApplyLink(anchor: Option<Option<string>>): (r: Result<string, RowError>)
    ensures r.Failure? <==> anchor == Some(None)
    ensures anchor == None ==> r == Success(NoLink)
    ensures anchor.Some? && anchor.value.Some? ==> r == Success(Origin + anchor.value.value)
  {
    match anchor
    case None => Success(NoLink)
    case Some(None) => Failure(MissingHref)
    case Some(Some(href)) => Success(Origin + href)
  }

  /**
   * The stored link tells the two cases apart: it is "No link" exactly when the
   * row had no apply button, and otherwise the href is what follows the origin.
   */
  lemma LinkRevealsHref(anchor: Option<Option<string>>)
    requires anchor != Some(None)
    ensures var link := ApplyLink(anchor).value;
      && (link == NoLink <==> anchor == None)
      && (anchor != None ==> |Origin| <= |link| && link[..|Origin|] == Origin && link[|Origin|..] == anchor.value.value)
  {
    if anchor != None {
      var link := Origin + anchor.value.value;
      assert |link| >= |Origin| > |NoLink|;
      assert link[..|Origin|] == Origin;
      assert link[|Origin|..] == anchor.value.value;
    }
  }

  /**
   * The body of the loop for one row: sentinel for every missing cell, the
   * link, the timestamp read for this row, and the hash of the 9-tuple.
   */
  function ProcessRow(row: Row, timestamp: string, md5: Digest): (r: Result<Apartment, RowError>)
    ensures r.Success? <==> RowSurvives(row)
    ensures r.Success? ==>
      var l := r.value.listing;
      && Filled(row.address, l.address) && Filled(row.rentalGross, l.rentalGross)
      && Filled(row.rooms, l.rooms) && Filled(row.floor, l.floor) && Filled(row.area, l.area)
      && Filled(row.moveInDate, l.moveInDate) && Filled(row.zone, l.zone)
      && Success(l.link) == ApplyLink(row.applyButton)
      && l.timestamp == timestamp
      && r.value.uniqueHash == UniqueHash(md5, l)
  {
    match ApplyLink(row.applyButton)
    case Failure(e) => Failure(e)
    case Success(link) =>
      var l := Listing(CellText(row.address), CellText(row.rentalGross), CellText(row.rooms),
                       CellText(row.floor), CellText(row.area), CellText(row.moveInDate),
                       CellText(row.zone), link, timestamp);
      Success(Apartment(l, UniqueHash(md5, l)))
  }

  /**
   * The hash is taken over the sentinel, not over a shortened key: a row with
   * no floor cell is keyed as if its floor were "Keine Angabe".
   */
  lemma MissingCellHashedAsSentinel(row: Row, timestamp: string, md5: Digest)
    requires RowSurvives(row) && row.floor == None
    ensures var apt := ProcessRow(row, timestamp, md5).value;
      && apt.listing.floor == NoInfo
      && apt.uniqueHash == md5(apt.listing.address + "-" + apt.listing.rentalGross + "-" +
                               apt.listing.rooms + "-Keine Angabe-" + apt.listing.moveInDate)
  {
    SentinelFloorKey(ProcessRow(row, timestamp, md5).value.listing);
  }

  /** The key of a listing whose floor is the sentinel, written out. */
  lemma SentinelFloorKey(l: Listing)
    requires l.floor == NoInfo
    ensures UniqueKey(l) == l.address + "-" + l.rentalGross + "-" + l.rooms + "-Keine Angabe-" + l.moveInDate
  {
    assert [Separator] + NoInfo + [Separator] == "-Keine Angabe-";
  }

  /** A row with every cell present and a relative href. */
  lemma CompleteRowExample(timestamp: string, md5: Digest)
    ensures
      ProcessRow(Row(Some("Musterstrasse 1"), Some("1500"), Some("3"), Some("2"), Some("80m2"),
                     Some("01.05.2025"), Some("Kreis 4"), Some(Some("/apply/123"))), timestamp, md5)
      == Success(Apartment(
           Listing("Musterstrasse 1", "1500", "3", "2", "80m2", "01.05.2025", "Kreis 4",
                   "https://www.vermietungen.stadt-zuerich.ch/apply/123", timestamp),
           md5("Musterstrasse 1-1500-3-2-01.05.2025")))
  {
    var l := Listing("Musterstrasse 1", "1500", "3", "2", "80m2", "01.05.2025", "Kreis 4",
                     "https://www.vermietungen.stadt-zuerich.ch/apply/123", timestamp);
    assert Origin + "/apply/123" == l.link;
    assert UniqueKey(l) == "Musterstrasse 1-1500-3-2-01.05.2025";
  }

  /**
   * The apartments fetched from the first rows, as the loop has collected them:
   * a row that raises adds nothing, any other row adds its tuple at the end.
   * `clock(i)` is the timestamp read while row `i` is processed.
   */
  function Fetched(rows: seq<Row>, clock: nat -> string, md5: Digest): (r: seq<Apartment>)
    ensures |r| <= |rows|
    ensures forall k :: 0 <= k < |r| ==> r[k].uniqueHash == UniqueHash(md5, r[k].listing)
    decreases |rows|
  {
    if rows == [] then []
    else
      var n := |rows| - 1;
      var prev := Fetched(rows[..n], clock, md5);
      match ProcessRow(rows[n], clock(n), md5)
      case Success(apt) => prev + [apt]
      case Failure(_) => prev
  }

  /** fetch_apartments, from the list of table rows on. */
  method FetchApartments(rows: seq<Row>, clock: nat -> string, md5: Digest) returns (apartments: seq<Apartment>)
    ensures apartments == Fetched(rows, clock, md5)
  {
    apartments := [];
    for i := 0 to |rows|
      invariant apartments == Fetched(rows[..i], clock, md5)
    {
      assert rows[..i + 1][..i] == rows[..i];
      match ProcessRow(rows[i], clock(i), md5)
      case Success(apt) =>
        apartments := apartments + [apt];
      case Failure(_) =>
    }
    assert rows[..|rows|] == rows;
  }

  /**
   * Row order is kept and only raising rows are dropped: with `ix` the
   * positions of the rows that survive, the k-th fetched apartment is what row
   * `ix[k]` produced.
   */
  lemma {:induction false} FetchedFollowsRows(rows: seq<Row>, clock: nat -> string, md5: Digest, survives: nat -> bool)
    requires forall i :: 0 <= i < |rows| ==> survives(i) == RowSurvives(rows[i])
    ensures var ix := IndicesWhere(|rows|, survives);
      && |ix| == |Fetched(rows, clock, md5)|
      && forall k :: 0 <= k < |ix| ==>
           ProcessRow(rows[ix[k]], clock(ix[k]), md5) == Success(Fetched(rows, clock, md5)[k])
  {
    if rows != [] {
      var n := |rows| - 1;
      FetchedFollowsRows(rows[..n], clock, md5, survives);
      var ix' := IndicesWhere(n, survives);
      var ix := IndicesWhere(|rows|, survives);
      var prev := Fetched(rows[..n], clock, md5);
      var r := Fetched(rows, clock, md5);
      var last := ProcessRow(rows[n], clock(n), md5);
      if last.Success? {
        assert r == prev + [last.value] && ix == ix' + [n];
      } else {
        assert r == prev && ix == ix';
      }
      forall k | 0 <= k < |ix|
        ensures ProcessRow(rows[ix[k]], clock(ix[k]), md5) == Success(r[k])
      {
        if k < |ix'| {
          assert ix[k] == ix'[k] && r[k] == prev[k];
          assert rows[ix[k]] == rows[..n][ix'[k]];
        }
      }
    }
  }

  /**
   * Two fetches of the same rows differ at most in their timestamps: the same
   * apartments come back in the same order, with the same hashes.
   */
  lemma {:induction false} FetchedHashesIgnoreClock(rows: seq<Row>, clock1: nat -> string, clock2: nat -> string, md5: Digest)
    ensures |Fetched(rows, clock1, md5)| == |Fetched(rows, clock2, md5)|
    ensures forall k :: 0 <= k < |Fetched(rows, clock1, md5)| ==>
      Fetched(rows, clock1, md5)[k].uniqueHash == Fetched(rows, clock2, md5)[k].uniqueHash &&
      Fetched(rows, clock1, md5)[k].listing.(timestamp := "") == Fetched(rows, clock2, md5)[k].listing.(timestamp := "")
  {
    if rows != [] {
      var n := |rows| - 1;
      FetchedHashesIgnoreClock(rows[..n], clock1, clock2, md5);
      match ProcessRow(rows[n], clock1(n), md5)
      case Failure(_) =>
      case Success(a1) =>
        var a2 := ProcessRow(rows[n], clock2(n), md5).value;
        assert a1.listing.(timestamp := "") == a2.listing.(timestamp := "");
        HashIgnoresOtherPositions(md5, a1.listing, a2.listing);
    }
  }
}
