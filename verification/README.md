# Zurich municipal apartment crawler — verified model of its deduplication core

The crawler reads the table of municipal apartments offered for rent in Zurich,
turns each table row into a 10-field tuple, and saves the apartments it has not
seen before in an sqlite table. It then sends one Telegram message per new
apartment. This project models the part between the HTML and the messages, in
Dafny:

- **Row normalisation** (`Scraper`). A row arrives as seven optional cell texts
  and an optional apply button, which may lack an `href`. A missing cell becomes
  `"Keine Angabe"`. A link becomes `https://www.vermietungen.stadt-zuerich.ch`
  followed by the href, or `"No link"` when there is no button. A button without
  `href` raises a KeyError, and the loop skips that row.
- **Identity key** (`Apartments`). The hash of a tuple is the MD5 hex digest of
  fields 0, 1, 2, 3 and 5 joined with `-`. These are address, gross rent, rooms,
  floor and move-in date. MD5 is a parameter `md5: string -> HexDigest`, so
  nothing depends on what the digest computes.
- **Deduplicating store** (`Store`). The `apartments` table is a class holding
  its rows in insertion order and the set of their hashes (the UNIQUE index).
  `SaveNewApartments` is the source's loop: for each apartment in turn, look up
  its hash and insert the apartment if the hash is absent. It is proved against
  the specification function `NewApartments`.
- **One run** (`Run`). Fetch, then save. A second crawl of an unchanged page
  announces nothing, even though every row gets a new timestamp.

`Wrappers` holds `Option` and `Result`. `Positions` defines the increasing list
of positions where a predicate holds. It is used to say "exactly these inputs,
in input order".

Two points of the code are worth stating outright:

- The docstring of `generate_unique_hash` (ZuerichStadtwohnungen_Crawler.py:47)
  promises a unique hash for each apartment. The `-` join of the key (:48)
  breaks this before any digest is applied. Address `A-1` with rent `2` gives
  the same key as address `A` with rent `1-2` (`KeyNotInjective`). The key does
  determine the identity fields when the first four of them contain no `-`
  (`KeyInjectiveWithoutSeparators`).
- A row whose apply anchor has no `href` makes `link['href']` (:86) raise a
  KeyError. The handler at :96-98 catches it and the row is skipped.

## Model

| member | source | states |
|---|---|---|
| `Apartments.UniqueKey` | ZuerichStadtwohnungen_Crawler.py:46-48 | The key is address, gross rent, rooms, floor and move-in date, joined by four `-`: its length is their total length plus four. |
| `Apartments.UniqueHash` | ZuerichStadtwohnungen_Crawler.py:46-49 | `generate_unique_hash`: the hash depends only on address, gross rent, rooms, floor and move-in date. Every listing that agrees with `l` on those five fields is digested to the same hash. |
| `Apartments.HashIgnoresOtherPositions` | ZuerichStadtwohnungen_Crawler.py:46-49 | Tuples that agree on positions 0, 1, 2, 3 and 5 have the same key and hash, whatever their area, zone, link and timestamp. |
| `Apartments.KeyInjectiveWithoutSeparators` | ZuerichStadtwohnungen_Crawler.py:48 | If no `-` appears in the first four identity fields, two keys are equal exactly when the five identity fields are equal. |
| `Apartments.KeyNotInjective` | ZuerichStadtwohnungen_Crawler.py:48 | Gives two listings that differ in an identity field but have the same key. So the hash does not tell such listings apart. |
| `Scraper.ApplyLink` | ZuerichStadtwohnungen_Crawler.py:85-86 | No anchor gives `"No link"`. An anchor with href gives the origin followed by the href. An anchor without href fails (KeyError), and only that case fails. |
| `Scraper.LinkRevealsHref` | ZuerichStadtwohnungen_Crawler.py:85-86 | The stored link is `"No link"` exactly when the row had no anchor. Otherwise it starts with the origin, and the href can be read back after it. |
| `Scraper.ProcessRow` | ZuerichStadtwohnungen_Crawler.py:62-98 | A row succeeds exactly when it does not have an anchor without href. Each field is the cell text, or `"Keine Angabe"` for a missing cell. The link comes from `ApplyLink`, the timestamp is the one given, and position 9 is the hash of the 9-tuple. |
| `Scraper.MissingCellHashedAsSentinel` | ZuerichStadtwohnungen_Crawler.py:73-92 | A row without a floor cell stores `"Keine Angabe"` as its floor and is hashed with `-Keine Angabe-` in the floor slot of the key. |
| `Scraper.CompleteRowExample` | ZuerichStadtwohnungen_Crawler.py:64-94 | A complete row with href `/apply/123` gives the absolute link. Its hash is the digest of `Musterstrasse 1-1500-3-2-01.05.2025`. |
| `Scraper.Fetched` | ZuerichStadtwohnungen_Crawler.py:58-98 | The fetched list is never longer than the row list. Every fetched tuple carries at position 9 the hash of its first nine fields. |
| `Scraper.FetchApartments` | ZuerichStadtwohnungen_Crawler.py:58-98 | The loop over the rows returns exactly `Fetched(rows)`. |
| `Scraper.FetchedFollowsRows` | ZuerichStadtwohnungen_Crawler.py:61-98 | Let `ix` be the increasing positions of the rows that do not raise. The output has one tuple per such row, and tuple `k` is what row `ix[k]` produced. So row order is kept and only raising rows are dropped. |
| `Scraper.FetchedHashesIgnoreClock` | ZuerichStadtwohnungen_Crawler.py:89-94 | Two fetches of the same rows at different times give the same tuples in the same order, up to the timestamp. Their hashes are equal. |
| `Store.NewApartments` | ZuerichStadtwohnungen_Crawler.py:116-126 | The result is never longer than the batch. |
| `Store.NewApartmentsHashes` | ZuerichStadtwohnungen_Crawler.py:118-126 | The returned hashes are the batch's hashes minus those already stored. No hash is returned twice. |
| `Store.NewApartmentsWereUnknown` | ZuerichStadtwohnungen_Crawler.py:119-126 | Every returned apartment comes from the batch, and its hash was not in the table before the call. |
| `Store.NewApartmentsSelectFirstOccurrences` | ZuerichStadtwohnungen_Crawler.py:118-126 | Let `ix` be the increasing batch positions whose hash is not stored and does not occur earlier in the batch. The result has one element per such position, and element `k` is the batch element at `ix[k]`. |
| `Store.NewApartmentsIsSubsequence` | ZuerichStadtwohnungen_Crawler.py:118-126 | The result is a subsequence of the batch, in batch order. |
| `Store.NothingNewWhenAllKnown` | ZuerichStadtwohnungen_Crawler.py:118-133 | When every hash of the batch is already stored, nothing is returned. So calling again with the same batch returns an empty list. |
| `Store.AllNewWhenDistinct` | ZuerichStadtwohnungen_Crawler.py:118-133 | A batch with pairwise distinct hashes, none of them stored, is returned whole and in order. An empty table is one case of this. |
| `Store.SavingKeepsHashesDistinct` | ZuerichStadtwohnungen_Crawler.py:39 | If the stored rows have distinct hashes, they still do after the returned apartments are appended. |
| `Store.ApartmentTable.constructor` | ZuerichStadtwohnungen_Crawler.py:23-43 | A new table is empty, and its index matches its rows. |
| `Store.ApartmentTable.Contains` | ZuerichStadtwohnungen_Crawler.py:119-122 | The lookup finds a row exactly when some stored row has that hash. |
| `Store.ApartmentTable.Insert` | ZuerichStadtwohnungen_Crawler.py:123-125 | An insert succeeds exactly when the hash is not yet stored. On success the row is appended and its hash added to the index. On a UNIQUE violation nothing changes. Rows with distinct hashes keep them distinct. |
| `Store.ApartmentTable.SaveNewApartments` | ZuerichStadtwohnungen_Crawler.py:110-133 | Returns `NewApartments(stored hashes, batch)`. The new rows are the old rows followed by the returned ones, so nothing is changed or removed. The stored hashes become the old hashes together with all hashes of the batch. If the stored rows had distinct hashes (the UNIQUE constraint at :39), they still do. |
| `Run.Crawl` | ZuerichStadtwohnungen_Crawler.py:172-174 | One crawl returns the new apartments among those fetched from the rows and appends them to the table. Rows with distinct hashes keep them distinct. |
| `Run.RerunFindsNothing` | ZuerichStadtwohnungen_Crawler.py:172-176 | After a crawl has saved the apartments of a page, a second crawl of the same rows with any other timestamps returns nothing. |
| `Run.CrawlTwice` | ZuerichStadtwohnungen_Crawler.py:172-176 | Two crawls of the same rows: the second returns nothing, and the table ends as the first crawl left it, with its index matching its rows and distinct hashes kept distinct. |

## Left out

- The HTTP request and the HTML parsing (`requests.get`, BeautifulSoup selectors, `.text.strip()`) are library and network calls. Rows are modelled as cells that are already extracted and stripped.
- MD5 is library code. It is a parameter of every hashing operation, and its only assumed property is that it returns 32 lower-case hex digits. Nothing assumes it is injective.
- `datetime.now()` is a clock. The timestamp read for row `i` is `clock(i)`, and its text format is not modelled.
- The sqlite connection, commit, close and the `CREATE TABLE IF NOT EXISTS` are file I/O. The table is an in-memory object. Its row ids (`AUTOINCREMENT`) are implicit as positions. A run starting on an existing file is a table that already holds rows.
- `Store.ApartmentTable.Contains`: the SELECT returns a row, but the caller only tests whether it is `None`, so the model returns only whether a row was found.
- `Store.ApartmentTable.Valid` does not include the UNIQUE constraint itself. `Insert`, `SaveNewApartments`, `Crawl` and `CrawlTwice` each ensure that rows with distinct hashes keep them distinct, and the constructor starts from an empty table.
- Cell texts are `string`s of Unicode scalar values. A Python `str` may also hold a lone surrogate, for instance from a numeric character reference in the HTML. In an identity field, such a character makes `.encode('utf-8')` (:49) raise, and :96-98 would skip that row as well. So `Scraper.ProcessRow`'s "fails exactly for an anchor without href" holds for cells without lone surrogates.
- The Telegram messages (`send_telegram_message`) are async network I/O with a sleep. Its `except telegram.error.TimedOut` names `telegram`, a name the module never binds (`from telegram import Update` binds only `Update`), so a failed send raises NameError and no retry happens. The retry loop is not modelled.
- The message template and its date reformatting (`strptime`/`strftime`), the environment variables, the `print` logging and the async `main` around the crawl are not modelled.
