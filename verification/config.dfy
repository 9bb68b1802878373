/** The process configuration of src/config.go and its pure helpers: skip-list
    membership, the page size handed to the registry, and the two
    copy-with-one-field-changed builders. Loading it from the environment is
    not part of this model. */
module Config {

  /** Go's `int64`; Go's `int` is at most 64 bits wide, so it fits here too. */
  type Int64 = x: int | -0x8000_0000_0000_0000 <= x < 0x8000_0000_0000_0000

  datatype Specification = Specification(
    domain: string,
    pageSize: Int64,
    region: string,
    rethink: string,
    skipRepos: seq<string>,
    listen: string,
    load: bool,
    tableName: string,
    dbName: string)

  /** The page size as the registry client wants it: a widening conversion
      from Go `int` to `int64`, so no value is lost. */
  function AwsPageSize(s: Specification): (r: Int64)
    ensures r as int == s.pageSize as int
  {
    s.pageSize as int as Int64
  }

  /** True when `name` is, by exact string equality, one of the skipped
      repository names. */
  function Skip(s: Specification, name: string): (r: bool)
    ensures r <==> name in s.skipRepos
  {
    Listed(s.skipRepos, name)
  }

  /** The linear scan of the skip list, stopping at the first match. */
  function Listed(skips: seq<string>, name: string): (r: bool)
    ensures r <==> exists i :: 0 <= i < |skips| && skips[i] == name
    decreases |skips|
  {
    if |skips| == 0 then false
    else if name == skips[0] then true
    else Listed(skips[1..], name)
  }

  /** A copy of `s` naming another table; the receiver is a value and stays as it was. */
  function WithTableName(s: Specification, table: string): (r: Specification)
    ensures r.tableName == table
    ensures r.domain == s.domain && r.pageSize == s.pageSize && r.region == s.region
    ensures r.rethink == s.rethink && r.skipRepos == s.skipRepos && r.listen == s.listen
    ensures r.load == s.load && r.dbName == s.dbName
  {
    s.(tableName := table)
  }

  /** A copy of `s` naming another database; the receiver stays as it was. */
  function WithDbNAme(s: Specification, db: string): (r: Specification)
    ensures r.dbName == db
    ensures r.domain == s.domain && r.pageSize == s.pageSize && r.region == s.region
    ensures r.rethink == s.rethink && r.skipRepos == s.skipRepos && r.listen == s.listen
    ensures r.load == s.load && r.tableName == s.tableName
  {
    s.(dbName := db)
  }

  /** An empty skip list skips nothing. */
  lemma SkipEmptyList(s: Specification, name: string)
    requires s.skipRepos == []
    ensures !Skip(s, name)
  {
  }

  /** The skip list the configuration defaults to. */
  const DefaultSkipRepos: seq<string> := ["maven-central", "maven-central-store"]

  /** Matching is exact: with the default skip list, a prefix, an extension or
      a fragment of a listed name is not skipped. */
  lemma SkipIsExact(s: Specification)
    requires s.skipRepos == DefaultSkipRepos
    ensures Skip(s, "maven-central") && Skip(s, "maven-central-store")
    ensures !Skip(s, "maven") && !Skip(s, "central") && !Skip(s, "maven-central-store-2")
  {
    assert DefaultSkipRepos[0] == "maven-central";
    assert DefaultSkipRepos[1] == "maven-central-store";
  }

  /** The two builders touch different fields, so their order does not matter,
      and building twice keeps only the last value. */
  lemma BuildersCommuteAndOverwrite(s: Specification, t1: string, t2: string, d: string)
    ensures WithDbNAme(WithTableName(s, t1), d) == WithTableName(WithDbNAme(s, d), t1)
    ensures WithTableName(WithTableName(s, t1), t2) == WithTableName(s, t2)
    ensures WithTableName(s, s.tableName) == s
  {
  }
}
