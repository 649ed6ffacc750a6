/**
 * The `apartments` table and save_new_apartments
 * (ZuerichStadtwohnungen_Crawler.py). The sqlite file is modelled as an
 * in-memory, append-only sequence of rows with a unique index on the hash.
 */
module Store {
  import opened Positions
  import opened Apartments

  /** The hashes (position 9) occurring in a sequence of apartments. */
  function HashesOf(apts: seq<Apartment>): set<string>
  {
    set a | a in apts :: a.uniqueHash
  }

  lemma HashesOfAppend(apts: seq<Apartment>, a: Apartment)
    ensures HashesOf(apts + [a]) == HashesOf(apts) + {a.uniqueHash}
  {
    assert a in apts + [a];
    forall b | b in apts ensures b in apts + [a] { }
  }

  /** Sequences that agree position by position on the hash have the same hashes. */
  lemma HashesOfPointwise(xs: seq<Apartment>, ys: seq<Apartment>)
    requires |xs| == |ys|
    requires forall k :: 0 <= k < |xs| ==> xs[k].uniqueHash == ys[k].uniqueHash
    ensures HashesOf(xs) == HashesOf(ys)
  {
    forall h | h in HashesOf(xs) ensures h in HashesOf(ys) {
      var a :| a in xs && a.uniqueHash == h;
      var k :| 0 <= k < |xs| && xs[k] == a;
      assert ys[k] in ys;
    }
    forall h | h in HashesOf(ys) ensures h in HashesOf(xs) {
      var a :| a in ys && a.uniqueHash == h;
      var k :| 0 <= k < |ys| && ys[k] == a;
      assert xs[k] in xs;
    }
  }

  /** No hash occurs twice. */
  predicate DistinctHashes(apts: seq<Apartment>)
  {
    forall i, j :: 0 <= i < j < |apts| ==> apts[i].uniqueHash != apts[j].uniqueHash
  }

  /** Appending apartments with new, pairwise distinct hashes keeps the hashes distinct. */
  lemma DistinctHashesConcat(xs: seq<Apartment>, ys: seq<Apartment>)
    requires DistinctHashes(xs) && DistinctHashes(ys)
    requires HashesOf(xs) !! HashesOf(ys)
    ensures DistinctHashes(xs + ys)
  {
    var zs := xs + ys;
    forall i, j | 0 <= i < j < |zs| ensures zs[i].uniqueHash != zs[j].uniqueHash {
      if j < |xs| {
        assert zs[i] == xs[i] && zs[j] == xs[j];
      } else if |xs| <= i {
        assert zs[i] == ys[i - |xs|] && zs[j] == ys[j - |xs|];
      } else {
        assert xs[i] in xs && ys[j - |xs|] in ys;
        assert xs[i].uniqueHash in HashesOf(xs) && ys[j - |xs|].uniqueHash in HashesOf(ys);
      }
    }
  }

  /**
   * Position `i` of the batch is inserted: its hash is not in the table
   * beforehand and no earlier apartment of the batch has it.
   */
  predicate IsFirstNew(known: set<string>, apts: seq<Apartment>, i: nat)
    requires i < |apts|
  {
    apts[i].uniqueHash !in known &&
    forall j :: 0 <= j < i ==> apts[j].uniqueHash != apts[i].uniqueHash
  }

  /**
   * What save_new_apartments returns for a batch, given the hashes `known`
   * to the table when it starts: each apartment whose hash is neither known
   * nor inserted earlier in the same batch.
   */
  function NewApartments(known: set<string>, apts: seq<Apartment>): (r: seq<Apartment>)
    ensures |r| <= |apts|
    decreases |apts|
  {
    if apts == [] then []
    else
      var n := |apts| - 1;
      var prev := NewApartments(known, apts[..n]);
      if apts[n].uniqueHash in known || apts[n].uniqueHash in HashesOf(apts[..n]) then prev
      else prev + [apts[n]]
  }

  /**
   * The returned hashes are those of the batch that were not known, and no
   * hash is returned twice: a hash repeated within the batch is saved once.
   */
  lemma {:induction false} NewApartmentsHashes(known: set<string>, apts: seq<Apartment>)
    ensures HashesOf(NewApartments(known, apts)) == HashesOf(apts) - known
    ensures DistinctHashes(NewApartments(known, apts))
  {
    if apts != [] {
      var n := |apts| - 1;
      var prev := NewApartments(known, apts[..n]);
      NewApartmentsHashes(known, apts[..n]);
      assert apts == apts[..n] + [apts[n]];
      HashesOfAppend(apts[..n], apts[n]);
      if !(apts[n].uniqueHash in known || apts[n].uniqueHash in HashesOf(apts[..n])) {
        HashesOfAppend(prev, apts[n]);
        assert forall k :: 0 <= k < |prev| ==> prev[k] in prev;
      }
    }
  }

  /** No returned apartment had its hash in the table before the call. */
  lemma NewApartmentsWereUnknown(known: set<string>, apts: seq<Apartment>, a: Apartment)
    requires a in NewApartments(known, apts)
    ensures a.uniqueHash !in known
    ensures a in apts
  {
    NewApartmentsHashes(known, apts);
    assert a.uniqueHash in HashesOf(NewApartments(known, apts));
    NewApartmentsSelectFirstOccurrences(known, apts, (i: nat) => i < |apts| && IsFirstNew(known, apts, i));
    var r := NewApartments(known, apts);
    var ix := IndicesWhere(|apts|, (i: nat) => i < |apts| && IsFirstNew(known, apts, i));
    var k :| 0 <= k < |r| && r[k] == a;
    assert a == apts[ix[k]];
  }

  /** Position `i` is a first new occurrence exactly when its hash is neither known nor earlier in the batch. */
  lemma FirstNewIffUnseen(known: set<string>, apts: seq<Apartment>, i: nat)
    requires i < |apts|
    ensures IsFirstNew(known, apts, i) <==> apts[i].uniqueHash !in known + HashesOf(apts[..i])
  {
    var prefix := apts[..i];
    if apts[i].uniqueHash in HashesOf(prefix) {
      var b :| b in prefix && b.uniqueHash == apts[i].uniqueHash;
      var j :| 0 <= j < i && prefix[j] == b;
      assert apts[j] == b;
    }
    if exists j :: 0 <= j < i && apts[j].uniqueHash == apts[i].uniqueHash {
      var j :| 0 <= j < i && apts[j].uniqueHash == apts[i].uniqueHash;
      assert prefix[j] in prefix;
    }
  }

  /** Extending a batch by one apartment extends the result by it exactly when it is a first new occurrence. */
  lemma NewApartmentsStep(known: set<string>, apts: seq<Apartment>, i: nat)
    requires i < |apts|
    ensures NewApartments(known, apts[..i + 1]) ==
      if IsFirstNew(known, apts, i) then NewApartments(known, apts[..i]) + [apts[i]]
      else NewApartments(known, apts[..i])
  {
    var batch := apts[..i + 1];
    assert batch[..i] == apts[..i];
    assert batch == apts[..i] + [apts[i]];
    HashesOfAppend(apts[..i], apts[i]);
    FirstNewIffUnseen(known, apts, i);
  }

  /** Being a first new occurrence is decided by the apartments up to that position. */
  lemma IsFirstNewOnPrefix(known: set<string>, apts: seq<Apartment>, n: nat, i: nat)
    requires i < n <= |apts|
    ensures IsFirstNew(known, apts[..n], i) == IsFirstNew(known, apts, i)
  {
    assert forall j :: 0 <= j <= i ==> apts[..n][j] == apts[j];
  }

  /**
   * The batch is returned in input order, restricted to the first occurrence
   * of each hash not already known: with `ix` those positions, the k-th
   * returned apartment is the input at `ix[k]`.
   */
  lemma {:induction false} NewApartmentsSelectFirstOccurrences(known: set<string>, apts: seq<Apartment>, firstNew: nat -> bool)
    requires forall i :: 0 <= i < |apts| ==> firstNew(i) == IsFirstNew(known, apts, i)
    ensures var ix := IndicesWhere(|apts|, firstNew);
      && |ix| == |NewApartments(known, apts)|
      && forall k :: 0 <= k < |ix| ==> NewApartments(known, apts)[k] == apts[ix[k]]
  {
    if apts != [] {
      var n := |apts| - 1;
      var prefix := apts[..n];
      forall i | 0 <= i < n ensures firstNew(i) == IsFirstNew(known, prefix, i) {
        IsFirstNewOnPrefix(known, apts, n, i);
      }
      NewApartmentsSelectFirstOccurrences(known, prefix, firstNew);
      NewApartmentsStep(known, apts, n);
      assert apts[..n + 1] == apts;
      var ix' := IndicesWhere(n, firstNew);
      var ix := IndicesWhere(|apts|, firstNew);
      var prev := NewApartments(known, prefix);
      var r := NewApartments(known, apts);
      assert ix[..|ix'|] == ix';
      assert r[..|prev|] == prev;
      forall k | 0 <= k < |ix| ensures r[k] == apts[ix[k]] {
        if k < |ix'| {
          assert ix[k] == ix'[k];
        }
      }
    }
  }

  /** The returned apartments form a subsequence of the batch. */
  lemma NewApartmentsIsSubsequence(known: set<string>, apts: seq<Apartment>)
    ensures exists ix: seq<nat> ::
      && |ix| == |NewApartments(known, apts)|
      && StrictlyIncreasing(ix)
      && forall k :: 0 <= k < |ix| ==> ix[k] < |apts| && NewApartments(known, apts)[k] == apts[ix[k]]
  {
    var firstNew := (i: nat) => i < |apts| && IsFirstNew(known, apts, i);
    NewApartmentsSelectFirstOccurrences(known, apts, firstNew);
    var ix := IndicesWhere(|apts|, firstNew);
    assert forall k :: 0 <= k < |ix| ==> ix[k] < |apts| && NewApartments(known, apts)[k] == apts[ix[k]];
  }

  /** A batch whose hashes are all known already yields nothing: a repeated call returns []. */
  lemma NothingNewWhenAllKnown(known: set<string>, apts: seq<Apartment>)
    requires HashesOf(apts) <= known
    ensures NewApartments(known, apts) == []
  {
    NewApartmentsHashes(known, apts);
  }

  /**
   * A batch with pairwise distinct hashes, none of them known, is returned whole
   * and in order; in particular every apartment of it is new to an empty table.
   */
  lemma {:induction false} AllNewWhenDistinct(known: set<string>, apts: seq<Apartment>)
    requires DistinctHashes(apts)
    requires HashesOf(apts) !! known
    ensures NewApartments(known, apts) == apts
  {
    if apts != [] {
      var n := |apts| - 1;
      var prefix := apts[..n];
      assert apts == prefix + [apts[n]];
      HashesOfAppend(prefix, apts[n]);
      AllNewWhenDistinct(known, prefix);
    }
  }

  /**
   * Saving a batch keeps the table free of repeated hashes: the saved rows
   * followed by the returned ones have pairwise distinct hashes.
   */
  lemma SavingKeepsHashesDistinct(records: seq<Apartment>, apts: seq<Apartment>)
    requires DistinctHashes(records)
    ensures DistinctHashes(records + NewApartments(HashesOf(records), apts))
  {
    NewApartmentsHashes(HashesOf(records), apts);
    DistinctHashesConcat(records, NewApartments(HashesOf(records), apts));
  }

  /**
   * The `apartments` table: its rows in insertion order (the row id is the
   * position plus one) and the UNIQUE index on `unique_hash`.
   */
  class ApartmentTable {
    var records: seq<Apartment>
    var index: set<string>

    /** The index holds exactly the rows' hashes. */
    ghost predicate Valid()
      reads this
    {
      index == HashesOf(records)
    }

    /** The hashes stored in the table. */
    ghost function Known(): set<string>
      reads this
    {
      HashesOf(records)
    }

    /** A freshly created, empty table (create_db on a new file). */
    constructor ()
      ensures Valid()
      ensures records == [] && DistinctHashes(records)
    {
      records := [];
      index := {};
    }

    /**
     * SELECT * FROM apartments WHERE unique_hash = ?, then fetchone(): whether
     * a row comes back (the caller only tests the row against None).
     */
    method Contains(h: string) returns (found: bool)
      requires Valid()
      ensures found <==> exists k :: 0 <= k < |records| && records[k].uniqueHash == h
      ensures found <==> h in index
    {
      found := h in index;
      if found {
        var a :| a in records && a.uniqueHash == h;
        var k :| 0 <= k < |records| && records[k] == a;
      } else {
        forall k | 0 <= k < |records| ensures records[k].uniqueHash != h {
          assert records[k] in records;
        }
      }
    }

    /**
     * INSERT INTO apartments: appends a row; a hash already present violates
     * the UNIQUE constraint, and then nothing changes.
     */
    method Insert(apt: Apartment) returns (ok: bool)
      requires Valid()
      modifies this
      ensures Valid()
      ensures ok <==> apt.uniqueHash !in old(index)
      ensures records == if ok then old(records) + [apt] else old(records)
      ensures index == old(index) + {apt.uniqueHash}
      ensures DistinctHashes(old(records)) ==> DistinctHashes(records)
    {
      if apt.uniqueHash in index {
        ok := false;
      } else {
        HashesOfAppend(records, apt);
        HashesOfAppend([], apt);
        if DistinctHashes(records) {
          DistinctHashesConcat(records, [apt]);
        }
        records := records + [apt];
        index := index + {apt.uniqueHash};
        ok := true;
      }
    }

    /**
     * save_new_apartments: inserts each apartment of the batch whose hash is
     * not yet in the table, looked up when its turn comes, and returns those
     * inserted, in batch order. The table only grows: its old rows stay as they
     * were and the returned apartments follow them.
     */
    method SaveNewApartments(apartments: seq<Apartment>) returns (newApartments: seq<Apartment>)
      requires Valid()
      modifies this
      ensures Valid()
      ensures newApartments == NewApartments(old(Known()), apartments)
      ensures records == old(records) + newApartments
      ensures Known() == old(Known()) + HashesOf(apartments)
      ensures DistinctHashes(old(records)) ==> DistinctHashes(records)
    {
      ghost var known := Known();
      newApartments := [];
      for i := 0 to |apartments|
        invariant Valid()
        invariant records == old(records) + newApartments
        invariant newApartments == NewApartments(known, apartments[..i])
        invariant index == known + HashesOf(apartments[..i])
      {
        var apt := apartments[i];
        assert apartments[..i + 1] == apartments[..i] + [apt];
        HashesOfAppend(apartments[..i], apt);
        FirstNewIffUnseen(known, apartments, i);
        NewApartmentsStep(known, apartments, i);
        var found := Contains(apt.uniqueHash);
        if !found {
          var ok := Insert(apt);
          newApartments := newApartments + [apt];
        }
      }
      assert apartments[..|apartments|] == apartments;
      if DistinctHashes(old(records)) {
        SavingKeepsHashesDistinct(old(records), apartments);
      }
    }
  }
}
