/**
 The migration record, its validity check, and discovery: turning a listing of
 artifact names into the registry of up/down pairs keyed by id.

 Parsing an artifact name into (id, direction, name) is not part of this model;
 it is a parameter `parse`, with `None` standing for a parse error.
 */
module Metadata {
  import opened Base

  /** Migration statuses. Go encodes them as the integers 0 and 1. */
  datatype Status = Inactive | Active

  function StatusCode(s: Status): int {
    match s
    case Inactive => 0
    case Active => 1
  }

  /** Go's `migrationType` is a string type; only two values are meaningful. */
  type MigrationType = string

  const UpMigration: MigrationType := "up"
  const DownMigration: MigrationType := "down"

  /** Configuration of one migration: its id, label, the two script locations
      and whether it is currently applied. */
  datatype Migration = Migration(
    id: MigrationId,
    name: string,
    upPath: string,
    downPath: string,
    status: Status)

  /** The path of the up half when `up` holds, of the down half otherwise. */
  function PathOf(m: Migration, up: bool): string {
    if up then m.upPath else m.downPath
  }

  /** A migration is usable only with a non-zero id, a name and both halves. */
  predicate Valid(m: Migration) {
    m.id != 0 && m.name != "" && m.upPath != "" && m.downPath != ""
  }

  type Registry = map<MigrationId, Migration>

  /** Every key names the migration stored under it. */
  ghost predicate WellFormed(ms: Registry) {
    forall k | k in ms :: ms[k].id == k
  }

  /** What parsing an artifact name yields. */
  datatype Parsed = Parsed(id: MigrationId, mType: MigrationType, name: string)

  type Parser = string -> Option<Parsed>

  /** Artifact `f` parses and carries id `id`. */
  ghost predicate Sights(parse: Parser, f: string, id: MigrationId) {
    parse(f).Some? && parse(f).value.id == id
  }

  /** Artifact `f` parses, carries id `id`, and fills the up half (when `up`)
      or the down half (otherwise): every direction other than "up" counts
      as down. */
  ghost predicate Carries(parse: Parser, f: string, id: MigrationId, up: bool) {
    Sights(parse, f, id) && (parse(f).value.mType == UpMigration) == up
  }

  /** Some artifact of the listing parses and carries id `id`. */
  ghost predicate SightedIn(listing: seq<string>, parse: Parser, id: MigrationId) {
    exists i | 0 <= i < |listing| :: Sights(parse, listing[i], id)
  }

  /** Every entry is Inactive. */
  ghost predicate AllInactive(ms: Registry) {
    forall id | id in ms :: ms[id].status == Inactive
  }

  /** Every non-empty path of the registry is an element of the listing. */
  ghost predicate PathsListed(ms: Registry, listing: seq<string>) {
    forall id | id in ms ::
      && (ms[id].upPath == "" || ms[id].upPath in listing)
      && (ms[id].downPath == "" || ms[id].downPath in listing)
  }

  /** Validation passes: every entry is valid. */
  ghost predicate AllValid(ms: Registry) {
    forall id | id in ms :: Valid(ms[id])
  }

  /** One parsed artifact entered into the registry: the first sighting of an
      id creates an Inactive entry named after it, and the artifact's path
      fills the half its direction names. */
  function Record(ms: Registry, path: string, p: Parsed): (r: Registry)
    ensures r.Keys == ms.Keys + {p.id}
    ensures forall k | k in ms && k != p.id :: r[k] == ms[k]
    ensures p.id in ms ==> r[p.id] == ms[p.id].(upPath := r[p.id].upPath, downPath := r[p.id].downPath)
    ensures p.id !in ms ==> r[p.id].id == p.id && r[p.id].name == p.name && r[p.id].status == Inactive
    ensures PathOf(r[p.id], p.mType == UpMigration) == path
    ensures PathOf(r[p.id], p.mType != UpMigration)
         == if p.id in ms then PathOf(ms[p.id], p.mType != UpMigration) else ""
    ensures WellFormed(ms) ==> WellFormed(r)
  {
    var m := if p.id in ms then ms[p.id] else Migration(p.id, p.name, "", "", Inactive);
    ms[p.id := if p.mType == UpMigration then m.(upPath := path) else m.(downPath := path)]
  }

  /** The grouping loop over a listing, processed in listing order; artifacts
      that do not parse are skipped. */
  function Pair(listing: seq<string>, parse: Parser): (r: Registry)
    ensures WellFormed(r)
    ensures AllInactive(r)
    ensures forall id | id in r :: r[id].upPath != "" || r[id].downPath != "" || "" in listing
    decreases |listing|
  {
    if |listing| == 0 then map[]
    else
      var prefix := listing[..|listing| - 1];
      var f := listing[|listing| - 1];
      var ms := Pair(prefix, parse);
      match parse(f)
      case None => ms
      case Some(p) => Record(ms, f, p)
  }

  /** The registry built from a listing holds one Inactive entry for each id
      some artifact carries, each stored under its own id. */
  lemma {:induction false} PairShape(listing: seq<string>, parse: Parser)
    ensures WellFormed(Pair(listing, parse))
    ensures forall id :: id in Pair(listing, parse) <==> SightedIn(listing, parse, id)
    ensures AllInactive(Pair(listing, parse))
    decreases |listing|
  {
    if |listing| > 0 {
      var prefix := listing[..|listing| - 1];
      var f := listing[|listing| - 1];
      PairShape(prefix, parse);
      var ms := Pair(prefix, parse);
      var r := Pair(listing, parse);
      forall id
        ensures id in r <==> SightedIn(listing, parse, id)
      {
        if SightedIn(prefix, parse, id) {
          var i :| 0 <= i < |prefix| && Sights(parse, prefix[i], id);
          assert listing[i] == prefix[i];
        }
        if SightedIn(listing, parse, id) && !Sights(parse, f, id) {
          var i :| 0 <= i < |listing| && Sights(parse, listing[i], id);
          assert prefix[i] == listing[i];
        }
      }
    }
  }

  /** Every path the registry stores is one of the listed artifacts. */
  lemma {:induction false} PairPathsListed(listing: seq<string>, parse: Parser)
    ensures PathsListed(Pair(listing, parse), listing)
    decreases |listing|
  {
    if |listing| > 0 {
      var prefix := listing[..|listing| - 1];
      PairPathsListed(prefix, parse);
      forall s | s in prefix
        ensures s in listing
      {
      }
    }
  }

  /** The result of a discovery: Go's `(map, error)` pair, where a `None`
      registry is a nil map. */
  datatype Discovery = Discovery(registry: Option<Registry>, err: Option<Error>)

  /** The registry a discovery hands over; a nil map reads as empty. */
  function Registered(d: Discovery): Registry {
    if d.registry.Some? then d.registry.value else map[]
  }

  /** Discovery shared by the file and asset sources: pair the listing, then
      reject the whole registry if any entry is not valid. */
  function FindMigrations(listing: seq<string>, parse: Parser): (r: Discovery)
    ensures r.registry.Some?
    ensures WellFormed(r.registry.value)
    ensures forall id :: id in r.registry.value <==> SightedIn(listing, parse, id)
    ensures AllInactive(r.registry.value)
    ensures r.err.None? <==> AllValid(r.registry.value)
    ensures r.err.Some? ==> r.err.value == InvalidMigrationPair
  {
    PairShape(listing, parse);
    var ms := Pair(listing, parse);
    if forall id | id in ms :: Valid(ms[id]) then Discovery(Some(ms), None)
    else Discovery(Some(ms), Some(InvalidMigrationPair))
  }

  /** The parser the file-system source applies: it parses the base name of
      a glob match. */
  function OnBaseName(baseName: string -> string, parse: Parser): Parser {
    f => parse(baseName(f))
  }

  /** The file-system source: ids, directions and names come from the base
      name of each glob match, while the stored paths are the full matches. */
  function FindFileMigrations(matches: seq<string>, baseName: string -> string, parse: Parser): (r: Discovery)
    ensures r.registry.Some?
    ensures WellFormed(r.registry.value)
    ensures forall id :: id in r.registry.value <==> SightedIn(matches, OnBaseName(baseName, parse), id)
    ensures AllInactive(r.registry.value)
    ensures PathsListed(r.registry.value, matches)
    ensures r.err.None? <==> AllValid(r.registry.value)
    ensures r.err.Some? ==> r.err.value == InvalidMigrationPair
  {
    PairPathsListed(matches, OnBaseName(baseName, parse));
    FindMigrations(matches, OnBaseName(baseName, parse))
  }

  /** The embedded-asset source: a failing directory listing is returned with
      a nil registry; otherwise the listed names are paired and validated. */
  function FindAssetMigrations(assetDir: Result<seq<string>>, parse: Parser): (r: Discovery)
    ensures assetDir.Failure? ==> r == Discovery(None, Some(assetDir.error))
    ensures assetDir.Success? ==>
              && r.registry.Some?
              && WellFormed(r.registry.value)
              && (forall id :: id in r.registry.value <==> SightedIn(assetDir.value, parse, id))
              && AllInactive(r.registry.value)
              && PathsListed(r.registry.value, assetDir.value)
              && (r.err.None? <==> AllValid(r.registry.value))
              && (r.err.Some? ==> r.err.value == InvalidMigrationPair)
  {
    match assetDir
    case Failure(e) => Discovery(None, Some(e))
    case Success(files) =>
      PairPathsListed(files, parse);
      FindMigrations(files, parse)
  }
}
