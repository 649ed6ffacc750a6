/**
 * The listing tuples the crawler builds and the identity key it derives from them
 * (ZuerichStadtwohnungen_Crawler.py, generate_unique_hash).
 */
module Apartments {

  /** Text stored for a cell the row does not have ("no information"). */
  const NoInfo: string := "Keine Angabe"

  /** Text stored as the link of a row without an apply button. */
  const NoLink: string := "No link"

  /** Origin put in front of the apply button's relative href. */
  const Origin: string := "https://www.vermietungen.stadt-zuerich.ch"

  /** Separator between the identity fields in the key. */
  const Separator: char := '-'

  predicate IsLowerHexDigit(c: char)
  {
    '0' <= c <= '9' || 'a' <= c <= 'f'
  }

  /** What an MD5 `hexdigest()` returns: 32 lower-case hexadecimal digits. */
  type HexDigest = s: string | |s| == 32 && forall i :: 0 <= i < |s| ==> IsLowerHexDigit(s[i])
    witness "00000000000000000000000000000000"

  /**
   * MD5 of the UTF-8 encoding of a string, as a hex digest. The digest itself is
   * library code and is kept abstract: every operation that hashes takes it as a
   * parameter, and nothing here assumes it is injective.
   */
  type Digest = string -> HexDigest

  /** The 9-tuple built for one table row (positions 0 to 8). */
  datatype Listing = Listing(
    address: string,      // 0
    rentalGross: string,  // 1
    rooms: string,        // 2
    floor: string,        // 3
    area: string,         // 4
    moveInDate: string,   // 5
    zone: string,         // 6
    link: string,         // 7
    timestamp: string     // 8
  )

  /** The 10-tuple that is fetched, stored and returned: a listing and its hash (position 9). */
  datatype Apartment = Apartment(listing: Listing, uniqueHash: string)

  /** Field `i` of the tuple, by position. */
  function Field(l: Listing, i: nat): string
    requires i < 9
  {
    match i
    case 0 => l.address
    case 1 => l.rentalGross
    case 2 => l.rooms
    case 3 => l.floor
    case 4 => l.area
    case 5 => l.moveInDate
    case 6 => l.zone
    case 7 => l.link
    case _ => l.timestamp
  }

  /** The positions that feed the identity key. */
  const IdentityPositions: set<nat> := {0, 1, 2, 3, 5}

  /** Two listings agree on every identity position. */
  predicate SameIdentity(a: Listing, b: Listing)
  {
    a.address == b.address && a.rentalGross == b.rentalGross && a.rooms == b.rooms &&
    a.floor == b.floor && a.moveInDate == b.moveInDate
  }

  /** The string that is digested: fields 0, 1, 2, 3 and 5 joined with '-'. */
  function UniqueKey(l: Listing): (k: string)
    ensures |k| == |l.address| + |l.rentalGross| + |l.rooms| + |l.floor| + |l.moveInDate| + 4
  {
    l.address + [Separator] + l.rentalGross + [Separator] + l.rooms + [Separator] +
    l.floor + [Separator] + l.moveInDate
  }

  /** generate_unique_hash: the hex digest of the identity key. */
  function UniqueHash(md5: Digest, l: Listing): (h: HexDigest)
    ensures forall b: Listing {:trigger UniqueKey(b)} :: SameIdentity(b, l) ==> h == md5(UniqueKey(b))
  {
    md5(UniqueKey(l))
  }

  /**
   * The hash depends on positions 0, 1, 2, 3 and 5 only: listings that agree
   * there have the same hash whatever their area, zone, link and timestamp.
   */
  lemma HashIgnoresOtherPositions(md5: Digest, a: Listing, b: Listing)
    requires forall i :: i in IdentityPositions ==> Field(a, i) == Field(b, i)
    ensures SameIdentity(a, b)
    ensures UniqueKey(a) == UniqueKey(b)
    ensures UniqueHash(md5, a) == UniqueHash(md5, b)
  {
    assert Field(a, 0) == Field(b, 0) && Field(a, 1) == Field(b, 1);
    assert Field(a, 2) == Field(b, 2) && Field(a, 3) == Field(b, 3);
    assert Field(a, 5) == Field(b, 5);
  }

  predicate NoSeparator(s: string)
  {
    Separator !in s
  }

  /** Splitting at the first separator: a separator-free head is recovered uniquely. */
  lemma {:induction false} JoinInjective(x: string, s: string, y: string, t: string)
    requires NoSeparator(x) && NoSeparator(y)
    requires x + [Separator] + s == y + [Separator] + t
    ensures x == y && s == t
  {
    var u := x + [Separator] + s;
    if |x| < |y| {
      SeparatorAt(x, s, y, t);
      assert false;
    } else if |y| < |x| {
      SeparatorAt(y, t, x, s);
      assert false;
    }
    assert x == u[..|x|] == y;
    assert s == u[|x| + 1..] == t;
  }

  /** In `x + "-" + s`, position |x| holds the separator; so does `y` there if the joins agree. */
  lemma SeparatorAt(x: string, s: string, y: string, t: string)
    requires |x| < |y|
    requires x + [Separator] + s == y + [Separator] + t
    ensures y[|x|] == Separator
  {
    var u := x + [Separator] + s;
    assert u[|x|] == Separator;
    assert u[|x|] == (y + [Separator] + t)[|x|];
  }

  /**
   * When the first four identity fields hold no '-', the key determines the
   * identity fields: equal keys exactly when the listings agree on them.
   */
  lemma KeyInjectiveWithoutSeparators(a: Listing, b: Listing)
    requires NoSeparator(a.address) && NoSeparator(a.rentalGross) && NoSeparator(a.rooms) && NoSeparator(a.floor)
    requires NoSeparator(b.address) && NoSeparator(b.rentalGross) && NoSeparator(b.rooms) && NoSeparator(b.floor)
    ensures UniqueKey(a) == UniqueKey(b) <==> SameIdentity(a, b)
  {
    if UniqueKey(a) == UniqueKey(b) {
      var sep := [Separator];
      var a3 := a.floor + sep + a.moveInDate;
      var b3 := b.floor + sep + b.moveInDate;
      var a2 := a.rooms + sep + a3;
      var b2 := b.rooms + sep + b3;
      var a1 := a.rentalGross + sep + a2;
      var b1 := b.rentalGross + sep + b2;
      KeyNested(a);
      KeyNested(b);
      JoinInjective(a.address, a1, b.address, b1);
      JoinInjective(a.rentalGross, a2, b.rentalGross, b2);
      JoinInjective(a.rooms, a3, b.rooms, b3);
      JoinInjective(a.floor, a.moveInDate, b.floor, b.moveInDate);
    }
  }

  /** The key read as nested joins, right to left. */
  lemma KeyNested(l: Listing)
    ensures UniqueKey(l) == l.address + [Separator] + (l.rentalGross + [Separator] +
      (l.rooms + [Separator] + (l.floor + [Separator] + l.moveInDate)))
  {
  }

  /**
   * Without that restriction the key is not injective: address "A-1" with rent
   * "2" and address "A" with rent "1-2" give the same key, so the two listings
   * get the same hash whatever the digest is.
   */
  lemma KeyNotInjective() returns (a: Listing, b: Listing)
    ensures !SameIdentity(a, b)
    ensures UniqueKey(a) == UniqueKey(b)
  {
    a := Listing("A-1", "2", "3", "4", NoInfo, "5", NoInfo, NoLink, "");
    b := a.(address := "A", rentalGross := "1-2");
    assert a.address + [Separator] + a.rentalGross == b.address + [Separator] + b.rentalGross;
  }
}
