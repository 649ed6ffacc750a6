/**
 * One run of the crawler up to the notifications (ZuerichStadtwohnungen_Crawler.py,
 * main): fetch the rows, save the new apartments, and hand back those to announce.
 */
module Run {
  import opened Apartments
  import opened Scraper
  import opened Store

  /** Fetch, then save; the result is what main sends a message for, in order. */
  method Crawl(table: ApartmentTable, rows: seq<Row>, clock: nat -> string, md5: Digest) returns (toNotify: seq<Apartment>)
    requires table.Valid()
    modifies table
    ensures table.Valid()
    ensures toNotify == NewApartments(old(table.Known()), Fetched(rows, clock, md5))
    ensures table.records == old(table.records) + toNotify
    ensures table.Known() == old(table.Known()) + HashesOf(Fetched(rows, clock, md5))
    ensures DistinctHashes(old(table.records)) ==> DistinctHashes(table.records)
  {
    var apartments := FetchApartments(rows, clock, md5);
    toNotify := table.SaveNewApartments(apartments);
  }

  /**
   * Crawling an unchanged page a second time announces nothing, although
   * every row gets a new timestamp: the timestamps do not enter the hash.
   */
  lemma RerunFindsNothing(known: set<string>, rows: seq<Row>, clock1: nat -> string, clock2: nat -> string, md5: Digest)
    ensures NewApartments(known + HashesOf(Fetched(rows, clock1, md5)), Fetched(rows, clock2, md5)) == []
  {
    FetchedHashesIgnoreClock(rows, clock2, clock1, md5);
    HashesOfPointwise(Fetched(rows, clock2, md5), Fetched(rows, clock1, md5));
    NothingNewWhenAllKnown(known + HashesOf(Fetched(rows, clock1, md5)), Fetched(rows, clock2, md5));
  }

  /** Two crawls of the same rows: the second announces nothing and leaves the table as the first left it. */
  method CrawlTwice(table: ApartmentTable, rows: seq<Row>, clock1: nat -> string, clock2: nat -> string, md5: Digest)
    returns (first: seq<Apartment>, second: seq<Apartment>)
    requires table.Valid()
    modifies table
    ensures first == NewApartments(old(table.Known()), Fetched(rows, clock1, md5))
    ensures table.Valid()
    ensures second == []
    ensures table.records == old(table.records) + first
    ensures DistinctHashes(old(table.records)) ==> DistinctHashes(table.records)
  {
    ghost var known := table.Known();
    first := Crawl(table, rows, clock1, md5);
    second := Crawl(table, rows, clock2, md5);
    RerunFindsNothing(known, rows, clock1, clock2, md5);
  }
}
