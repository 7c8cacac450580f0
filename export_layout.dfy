/**
 * How the locations built in `core/gcp_client.py` and `core/flatten.py` fit
 * together: the export clears a table's directory and writes its shards
 * there, and the flattening step reads them back through a glob under the
 * same directory.
 */
module ExportLayout {
  import opened PyStr
  import opened GcpClient
  import opened Flatten

  /** Appending text that ends in a non-whitespace character keeps a trimmed, non-empty string trimmed. */
  lemma NoEdgeAppend(x: string, y: string)
    requires x != [] && NoEdgeWhitespace(x)
    requires y != [] && !IsWhitespace(y[|y| - 1])
    ensures NoEdgeWhitespace(x + y)
  {
    assert (x + y)[0] == x[0];
    assert (x + y)[|x + y| - 1] == y[|y| - 1];
  }

  /** A trimmed, colon-free path is its own cleaned text. */
  lemma CleanedPlain(s: string)
    requires ':' !in s && NoEdgeWhitespace(s)
    ensures Cleaned(s) == s
  {
    NoSchemeWithoutColon(s);
    StripNoEdge(s);
  }

  /** Prefixing such a path with `gs://` does not change its cleaned text. */
  lemma CleanedSchemed(s: string)
    requires ':' !in s && NoEdgeWhitespace(s)
    ensures Cleaned(Scheme + s) == s
  {
    NoSchemeWithoutColon(s);
    ReplaceSchemeOnce("", s);
    assert "" + Scheme + s == Scheme + s;
    assert "" + s == s;
    StripNoEdge(s);
  }

  /** The table directory is put back together from the two parts it parses into. */
  lemma DirectoryParts(destinationBucket: string, tableId: string)
    requires ':' !in destinationBucket && ':' !in tableId
    requires NoEdgeWhitespace(TableDirectory(destinationBucket, tableId))
    ensures var dir := ParseGcsPath(TableDirectory(destinationBucket, tableId));
            dir.bucketName + "/" + dir.pathPrefix == TableDirectory(destinationBucket, tableId)
  {
    var d := TableDirectory(destinationBucket, tableId);
    assert d[|destinationBucket|] == '/';
    assert ':' !in d;
    CleanedPlain(d);
  }

  /** Text appended to the cleaned text after its first `/` lands in the prefix. */
  lemma ParseCleanedExtended(gcsPath: string, bucket: string, prefix: string, tail: string)
    requires '/' !in bucket
    requires Cleaned(gcsPath) == (bucket + "/" + prefix) + tail
    ensures ParseGcsPath(gcsPath) == GcsPath(bucket, prefix + tail)
  {
    assert Cleaned(gcsPath) == bucket + "/" + (prefix + tail);
    ParseCleaned(gcsPath, bucket, prefix + tail);
  }

  /**
   * A path whose cleaned text continues the table directory parses into the
   * directory's bucket, with the continuation appended to its prefix.
   */
  lemma ParseExtendsDirectory(destinationBucket: string, tableId: string, gcsPath: string, tail: string)
    requires ':' !in destinationBucket && ':' !in tableId
    requires NoEdgeWhitespace(TableDirectory(destinationBucket, tableId))
    requires Cleaned(gcsPath) == TableDirectory(destinationBucket, tableId) + tail
    ensures var dir := ParseGcsPath(TableDirectory(destinationBucket, tableId));
            ParseGcsPath(gcsPath) == GcsPath(dir.bucketName, dir.pathPrefix + tail)
  {
    var d := TableDirectory(destinationBucket, tableId);
    var dir := ParseGcsPath(d);
    DirectoryParts(destinationBucket, tableId);
    ParseCleanedExtended(gcsPath, dir.bucketName, dir.pathPrefix, tail);
  }

  /** Five pieces joined left to right are the first piece followed by the rest. */
  lemma Regroup(a: string, b: string, c: string, d: string, e: string)
    ensures a + b + c + d + e == a + (b + (c + d + e))
  {
  }

  /** Regrouping of the text appended to a directory prefix. */
  lemma AppendTail(prefix: string, tableId: string, suffix: string)
    ensures prefix + ("/" + tableId + suffix) == prefix + "/" + tableId + suffix
  {
  }

  /**
   * The export target parses into the bucket of the directory that
   * `export_table_to_parquet` clears, with `<table>_part*.parquet` under
   * that directory's prefix: the shards are written where the old files
   * were deleted.
   */
  lemma ParseDestinationUri(destinationBucket: string, tableId: string)
    requires ':' !in destinationBucket && ':' !in tableId
    requires NoEdgeWhitespace(TableDirectory(destinationBucket, tableId))
    ensures var dir := ParseGcsPath(TableDirectory(destinationBucket, tableId));
            ParseGcsPath(DestinationUri(destinationBucket, tableId))
            == GcsPath(dir.bucketName, dir.pathPrefix + "/" + tableId + "_part*.parquet")
  {
    var d := TableDirectory(destinationBucket, tableId);
    var tail := "/" + tableId + "_part*.parquet";
    DestinationUriCleaned(destinationBucket, tableId);
    ParseExtendsDirectory(destinationBucket, tableId, DestinationUri(destinationBucket, tableId), tail);
    AppendTail(ParseGcsPath(d).pathPrefix, tableId, "_part*.parquet");
  }

  /** The export target cleans to the table directory followed by the sharded file name. */
  lemma DestinationUriCleaned(destinationBucket: string, tableId: string)
    requires ':' !in destinationBucket && ':' !in tableId
    requires NoEdgeWhitespace(TableDirectory(destinationBucket, tableId))
    ensures Cleaned(DestinationUri(destinationBucket, tableId))
            == TableDirectory(destinationBucket, tableId) + ("/" + tableId + "_part*.parquet")
  {
    var d := TableDirectory(destinationBucket, tableId);
    var tail := "/" + tableId + "_part*.parquet";
    Regroup(Scheme, d, "/", tableId, "_part*.parquet");
    SchemedDirectoryThenTail(destinationBucket, tableId, tail);
  }

  /** `gs://`, the table directory and colon-free text ending in a non-space clean to the last two. */
  lemma SchemedDirectoryThenTail(destinationBucket: string, tableId: string, tail: string)
    requires ':' !in destinationBucket && ':' !in tableId && ':' !in tail
    requires NoEdgeWhitespace(TableDirectory(destinationBucket, tableId))
    requires tail != [] && !IsWhitespace(tail[|tail| - 1])
    ensures Cleaned(Scheme + (TableDirectory(destinationBucket, tableId) + tail)) == TableDirectory(destinationBucket, tableId) + tail
  {
    var d := TableDirectory(destinationBucket, tableId);
    assert d[|destinationBucket|] == '/';
    NoEdgeAppend(d, tail);
    assert ':' !in d + tail;
    CleanedSchemed(d + tail);
  }

  /** The flattening glob needs no cleaning: it is the table directory followed by the file glob. */
  lemma FlattenLocationCleaned(destinationBucket: string, tableId: string)
    requires ':' !in destinationBucket && ':' !in tableId
    requires NoEdgeWhitespace(TableDirectory(destinationBucket, tableId))
    ensures Cleaned(BuildParquetFileLocation(destinationBucket, tableId))
            == TableDirectory(destinationBucket, tableId) + ("/" + tableId + "*.parquet")
  {
    var d := TableDirectory(destinationBucket, tableId);
    var tail := "/" + tableId + "*.parquet";
    assert BuildParquetFileLocation(destinationBucket, tableId) == d + tail;
    DirectoryThenTail(destinationBucket, tableId, tail);
  }

  /** The table directory followed by colon-free text ending in a non-space is its own cleaned text. */
  lemma DirectoryThenTail(destinationBucket: string, tableId: string, tail: string)
    requires ':' !in destinationBucket && ':' !in tableId && ':' !in tail
    requires NoEdgeWhitespace(TableDirectory(destinationBucket, tableId))
    requires tail != [] && !IsWhitespace(tail[|tail| - 1])
    ensures Cleaned(TableDirectory(destinationBucket, tableId) + tail) == TableDirectory(destinationBucket, tableId) + tail
  {
    var d := TableDirectory(destinationBucket, tableId);
    assert d[|destinationBucket|] == '/';
    NoEdgeAppend(d, tail);
    assert ':' !in d + tail;
    CleanedPlain(d + tail);
  }

  /**
   * The flattening glob parses into the same bucket, with
   * `<table>*.parquet` under the same directory prefix.
   */
  lemma ParseFlattenLocation(destinationBucket: string, tableId: string)
    requires ':' !in destinationBucket && ':' !in tableId
    requires NoEdgeWhitespace(TableDirectory(destinationBucket, tableId))
    ensures var dir := ParseGcsPath(TableDirectory(destinationBucket, tableId));
            ParseGcsPath(BuildParquetFileLocation(destinationBucket, tableId))
            == GcsPath(dir.bucketName, dir.pathPrefix + "/" + tableId + "*.parquet")
  {
    var d := TableDirectory(destinationBucket, tableId);
    var tail := "/" + tableId + "*.parquet";
    FlattenLocationCleaned(destinationBucket, tableId);
    ParseExtendsDirectory(destinationBucket, tableId, BuildParquetFileLocation(destinationBucket, tableId), tail);
    AppendTail(ParseGcsPath(d).pathPrefix, tableId, "*.parquet");
  }

  /**
   * A glob in which `*` stands for any run of characters other than `/` and
   * every other character stands for itself.
   */
  predicate StarMatch(pattern: string, name: string)
    decreases |pattern| + |name|
  {
    if pattern == [] then name == []
    else if pattern[0] == '*' then
      StarMatch(pattern[1..], name) || (name != [] && name[0] != '/' && StarMatch(pattern, name[1..]))
    else name != [] && name[0] == pattern[0] && StarMatch(pattern[1..], name[1..])
  }

  /** Text without `*` in the pattern matches itself, and the rest is matched as before. */
  lemma {:induction false} StarMatchLiteral(lit: string, pattern: string, name: string)
    requires '*' !in lit
    ensures StarMatch(lit + pattern, lit + name) <==> StarMatch(pattern, name)
    decreases |lit|
  {
    if lit != [] {
      assert (lit + pattern)[0] == lit[0] == (lit + name)[0] && lit[0] != '*';
      assert (lit + pattern)[1..] == lit[1..] + pattern;
      assert (lit + name)[1..] == lit[1..] + name;
      StarMatchLiteral(lit[1..], pattern, name);
      assert StarMatch(lit + pattern, lit + name) == StarMatch(lit[1..] + pattern, lit[1..] + name);
    } else {
      assert lit + pattern == pattern && lit + name == name;
    }
  }

  /** A `*` absorbs any run of characters without `/`. */
  lemma {:induction false} StarRun(pattern: string, run: string, name: string)
    requires '/' !in run
    requires StarMatch(pattern, name)
    ensures StarMatch("*" + pattern, run + name)
    decreases |run|
  {
    if run != [] {
      assert (run + name)[1..] == run[1..] + name;
      StarRun(pattern, run[1..], name);
    } else {
      assert ("*" + pattern)[0] == '*';
      assert ("*" + pattern)[1..] == pattern;
      assert run + name == name;
    }
  }

  /** A name matched by a pattern with a literal start begins with that text. */
  lemma {:induction false} StarMatchPrefix(lit: string, pattern: string, name: string)
    requires '*' !in lit
    requires StarMatch(lit + pattern, name)
    ensures |lit| <= |name| && name[..|lit|] == lit
    decreases |lit|
  {
    if lit != [] {
      assert (lit + pattern)[0] == lit[0];
      assert (lit + pattern)[1..] == lit[1..] + pattern;
      StarMatchPrefix(lit[1..], pattern, name[1..]);
    }
  }

  /**
   * The `bucket/object` name of one Parquet shard written by the export:
   * the destination URI without its `gs://`, with the shard label in place
   * of `*` (`ExportTargetTemplate`).
   */
  function ExportedShard(destinationBucket: string, tableId: string, shard: string): string {
    TableDirectory(destinationBucket, tableId) + "/" + tableId + "_part" + shard + ".parquet"
  }

  /** The export target is `gs://` followed by the shard name whose label is still `*`. */
  lemma ExportTargetTemplate(destinationBucket: string, tableId: string)
    ensures DestinationUri(destinationBucket, tableId) == Scheme + ExportedShard(destinationBucket, tableId, "*")
  {
  }

  /**
   * Every shard the export writes into a table's directory is matched by
   * the glob the flattening step reads for that table, provided the bucket
   * and table name hold no `*` and the shard label no `/`.
   */
  lemma FlattenGlobMatchesShards(destinationBucket: string, tableId: string, shard: string)
    requires '*' !in destinationBucket && '*' !in tableId && '/' !in shard
    ensures StarMatch(BuildParquetFileLocation(destinationBucket, tableId), ExportedShard(destinationBucket, tableId, shard))
  {
    var lit := destinationBucket + "/" + tableId + "/" + tableId;
    var run := "_part" + shard;
    ShardLayout(destinationBucket, tableId, shard);
    StarMatchSelf(".parquet");
    assert '/' !in run;
    StarRun(".parquet", run, ".parquet");
    StarMatchLiteral(lit, "*" + ".parquet", run + ".parquet");
  }

  /** Both names share the literal start `<bucket>/<table>/<table>`; then `*` faces `_part<shard>`. */
  lemma ShardLayout(destinationBucket: string, tableId: string, shard: string)
    ensures var lit := destinationBucket + "/" + tableId + "/" + tableId;
            BuildParquetFileLocation(destinationBucket, tableId) == lit + ("*" + ".parquet")
            && ExportedShard(destinationBucket, tableId, shard) == lit + (("_part" + shard) + ".parquet")
  {
  }

  /** A pattern without `*` matches itself. */
  lemma StarMatchSelf(lit: string)
    requires '*' !in lit
    ensures StarMatch(lit, lit)
  {
    StarMatchLiteral(lit, [], []);
    assert lit + [] == lit;
  }

  /**
   * The glob never reaches outside the table's directory: every name it
   * matches starts with `<bucket>/<table>/<table>`.
   */
  lemma FlattenGlobStaysInDirectory(destinationBucket: string, tableId: string, name: string)
    requires '*' !in destinationBucket && '*' !in tableId
    requires StarMatch(BuildParquetFileLocation(destinationBucket, tableId), name)
    ensures var lit := TableDirectory(destinationBucket, tableId) + "/" + tableId;
            |lit| <= |name| && name[..|lit|] == lit
  {
    var lit := TableDirectory(destinationBucket, tableId) + "/" + tableId;
    assert BuildParquetFileLocation(destinationBucket, tableId) == lit + "*.parquet";
    StarMatchPrefix(lit, "*.parquet", name);
  }
}
