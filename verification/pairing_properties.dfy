/**
 What discovery promises about the registry it builds: which sighting decides
 a migration's name and paths, that unparseable artifacts have no effect, and
 exactly when validation rejects the listing.
 */
module PairingProperties {
  import opened Base
  import opened Metadata

  /** The parseable artifacts of a listing, in listing order. */
  function Parseable(listing: seq<string>, parse: Parser): (r: seq<string>)
    ensures forall f | f in r :: f in listing && parse(f).Some?
    decreases |listing|
  {
    if |listing| == 0 then []
    else
      var rest := Parseable(listing[..|listing| - 1], parse);
      var f := listing[|listing| - 1];
      if parse(f).Some? then rest + [f] else rest
  }

  /** Unparseable artifacts are skipped: pairing the whole listing gives the
      same registry as pairing only the artifacts that parse. */
  lemma {:induction false} PairSkipsUnparseable(listing: seq<string>, parse: Parser)
    ensures Pair(listing, parse) == Pair(Parseable(listing, parse), parse)
    decreases |listing|
  {
    if |listing| > 0 {
      var prefix := listing[..|listing| - 1];
      var f := listing[|listing| - 1];
      PairSkipsUnparseable(prefix, parse);
      var kept := Parseable(prefix, parse);
      if parse(f).Some? {
        var kept' := kept + [f];
        assert Parseable(listing, parse) == kept';
        assert kept'[..|kept'| - 1] == kept;
        assert kept'[|kept'| - 1] == f;
        assert Pair(kept', parse) == Record(Pair(kept, parse), f, parse(f).value);
        assert Pair(listing, parse) == Record(Pair(prefix, parse), f, parse(f).value);
      } else {
        assert Parseable(listing, parse) == kept;
        assert Pair(listing, parse) == Pair(prefix, parse);
      }
    }
  }

  /** A listing in which nothing parses discovers an empty registry and no
      error. */
  lemma NothingParseableIsEmpty(listing: seq<string>, parse: Parser)
    requires forall i | 0 <= i < |listing| :: parse(listing[i]).None?
    ensures FindMigrations(listing, parse) == Discovery(Some(map[]), None)
  {
    var ms := FindMigrations(listing, parse).registry.value;
    assert ms.Keys == {};
  }

  /** The name of a migration is the name parsed from the first artifact that
      carries its id; later artifacts never rename it. */
  lemma {:induction false} PairNameIsFirstSighting(listing: seq<string>, parse: Parser, id: MigrationId)
    requires id in Pair(listing, parse)
    ensures forall i | 0 <= i < |listing| && Sights(parse, listing[i], id)
                       && (forall j | 0 <= j < i :: !Sights(parse, listing[j], id)) ::
              Pair(listing, parse)[id].name == parse(listing[i]).value.name
    decreases |listing|
  {
    var n := |listing|;
    var prefix := listing[..n - 1];
    var f := listing[n - 1];
    var before := Pair(prefix, parse);
    forall i | 0 <= i < n && Sights(parse, listing[i], id)
               && (forall j | 0 <= j < i :: !Sights(parse, listing[j], id))
      ensures Pair(listing, parse)[id].name == parse(listing[i]).value.name
    {
      PairShape(prefix, parse);
      if id in before {
        var w :| 0 <= w < n - 1 && Sights(parse, prefix[w], id);
        assert listing[w] == prefix[w];
        PairNameIsFirstSighting(prefix, parse, id);
        assert prefix[i] == listing[i];
        assert forall j | 0 <= j < i :: prefix[j] == listing[j];
      } else {
        assert forall j | 0 <= j < n - 1 :: prefix[j] == listing[j];
      }
    }
  }

  /** A half no artifact fills stays empty. */
  lemma {:induction false} PairPathEmptyWithoutCarrier(listing: seq<string>, parse: Parser, id: MigrationId, up: bool)
    requires id in Pair(listing, parse)
    requires forall i | 0 <= i < |listing| :: !Carries(parse, listing[i], id, up)
    ensures PathOf(Pair(listing, parse)[id], up) == ""
    decreases |listing|
  {
    var n := |listing|;
    var prefix := listing[..n - 1];
    PairShape(prefix, parse);
    assert forall i | 0 <= i < n - 1 :: prefix[i] == listing[i];
    if id in Pair(prefix, parse) {
      PairPathEmptyWithoutCarrier(prefix, parse, id, up);
    }
  }

  /** The path of each half is the path of the LAST artifact that fills it:
      a later artifact with the same id and direction overwrites an earlier
      one. */
  lemma {:induction false} PairPathIsLastCarrier(listing: seq<string>, parse: Parser, id: MigrationId, up: bool, i: int)
    requires 0 <= i < |listing| && Carries(parse, listing[i], id, up)
    requires forall j | i < j < |listing| :: !Carries(parse, listing[j], id, up)
    ensures id in Pair(listing, parse)
    ensures PathOf(Pair(listing, parse)[id], up) == listing[i]
    decreases |listing|
  {
    var n := |listing|;
    var prefix := listing[..n - 1];
    if i < n - 1 {
      assert prefix[i] == listing[i];
      assert forall j | i < j < n - 1 :: prefix[j] == listing[j];
      PairPathIsLastCarrier(prefix, parse, id, up, i);
    }
  }

  /** A half some artifact fills holds the path of one of those artifacts. */
  lemma {:induction false} PairPathFromSomeCarrier(listing: seq<string>, parse: Parser, id: MigrationId, up: bool)
    requires exists i | 0 <= i < |listing| :: Carries(parse, listing[i], id, up)
    ensures id in Pair(listing, parse)
    ensures exists i | 0 <= i < |listing| :: Carries(parse, listing[i], id, up)
                                             && PathOf(Pair(listing, parse)[id], up) == listing[i]
    decreases |listing|
  {
    var n := |listing|;
    var prefix := listing[..n - 1];
    if Carries(parse, listing[n - 1], id, up) {
      PairPathIsLastCarrier(listing, parse, id, up, n - 1);
    } else {
      var i :| 0 <= i < n && Carries(parse, listing[i], id, up);
      assert prefix[i] == listing[i];
      PairPathFromSomeCarrier(prefix, parse, id, up);
      var k :| 0 <= k < n - 1 && Carries(parse, prefix[k], id, up)
               && PathOf(Pair(prefix, parse)[id], up) == prefix[k];
      assert listing[k] == prefix[k];
      PairShape(listing, parse);
      assert Sights(parse, listing[k], id);
    }
  }

  /** The name of a migration is the name some artifact carrying its id was
      parsed with. */
  lemma {:induction false} PairNameFromSomeSighting(listing: seq<string>, parse: Parser, id: MigrationId)
    requires id in Pair(listing, parse)
    ensures exists i | 0 <= i < |listing| :: Sights(parse, listing[i], id)
                                             && Pair(listing, parse)[id].name == parse(listing[i]).value.name
    decreases |listing|
  {
    var n := |listing|;
    var prefix := listing[..n - 1];
    PairShape(prefix, parse);
    if id in Pair(prefix, parse) {
      PairNameFromSomeSighting(prefix, parse, id);
      var k :| 0 <= k < n - 1 && Sights(parse, prefix[k], id)
               && Pair(prefix, parse)[id].name == parse(prefix[k]).value.name;
      assert listing[k] == prefix[k];
    } else {
      assert Sights(parse, listing[n - 1], id);
    }
  }

  /** Artifacts for `id` fill both halves. */
  ghost predicate HasBothHalves(listing: seq<string>, parse: Parser, id: MigrationId) {
    && (exists j | 0 <= j < |listing| :: Carries(parse, listing[j], id, true))
    && (exists j | 0 <= j < |listing| :: Carries(parse, listing[j], id, false))
  }

  /** An id sighted without one of its halves fails discovery with the
      pairing error. */
  lemma MissingHalfFailsDiscovery(listing: seq<string>, parse: Parser, id: MigrationId, up: bool)
    requires SightedIn(listing, parse, id)
    requires forall i | 0 <= i < |listing| :: !Carries(parse, listing[i], id, up)
    ensures FindMigrations(listing, parse).err == Some(InvalidMigrationPair)
  {
    PairShape(listing, parse);
    PairPathEmptyWithoutCarrier(listing, parse, id, up);
    assert !Valid(Pair(listing, parse)[id]);
  }

  /** Conversely, when every artifact name is non-empty, every parsed artifact
      has a non-zero id and a name, and every id has both halves, discovery
      succeeds. */
  lemma CompletePairsPassValidation(listing: seq<string>, parse: Parser)
    requires forall i | 0 <= i < |listing| :: listing[i] != ""
    requires forall i | 0 <= i < |listing| && parse(listing[i]).Some? ::
               parse(listing[i]).value.id != 0 && parse(listing[i]).value.name != ""
    requires forall i | 0 <= i < |listing| && parse(listing[i]).Some? ::
               HasBothHalves(listing, parse, parse(listing[i]).value.id)
    ensures FindMigrations(listing, parse).err.None?
  {
    var ms := Pair(listing, parse);
    PairShape(listing, parse);
    forall id | id in ms
      ensures Valid(ms[id])
    {
      var i :| 0 <= i < |listing| && Sights(parse, listing[i], id);
      assert HasBothHalves(listing, parse, id);
      PairNameFromSomeSighting(listing, parse, id);
      PairPathFromSomeCarrier(listing, parse, id, true);
      PairPathFromSomeCarrier(listing, parse, id, false);
    }
  }

  /** What `valid()` means for a paired entry, in terms of the listing: the
      entry of `id` is valid iff `id` is non-zero, the first artifact carrying
      it gave a name, and the last artifacts filling its up and down halves
      have non-empty names. */
  lemma PairedValidIff(listing: seq<string>, parse: Parser, id: MigrationId, i: int, u: int, d: int)
    requires 0 <= i < |listing| && Sights(parse, listing[i], id)
    requires forall j | 0 <= j < i :: !Sights(parse, listing[j], id)
    requires 0 <= u < |listing| && Carries(parse, listing[u], id, true)
    requires forall j | u < j < |listing| :: !Carries(parse, listing[j], id, true)
    requires 0 <= d < |listing| && Carries(parse, listing[d], id, false)
    requires forall j | d < j < |listing| :: !Carries(parse, listing[j], id, false)
    ensures id in Pair(listing, parse)
    ensures Valid(Pair(listing, parse)[id])
        <==> id != 0 && parse(listing[i]).value.name != "" && listing[u] != "" && listing[d] != ""
  {
    PairPathIsLastCarrier(listing, parse, id, true, u);
    PairPathIsLastCarrier(listing, parse, id, false, d);
    PairNameIsFirstSighting(listing, parse, id);
    PairShape(listing, parse);
  }
}
