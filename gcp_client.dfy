/**
 * The pure string handling of `core/gcp_client.py`: `parse_gcs_path`, and the
 * two locations that `export_table_to_parquet` builds before it clears the
 * table's directory and starts the extract job.
 */
module GcpClient {
  import opened PyStr

  /** The URI scheme that `parse_gcs_path` removes wherever it occurs. */
  const Scheme: string := "gs://"

  /** The pair `(bucket_name, path_prefix)` returned by `parse_gcs_path`. */
  datatype GcsPath = GcsPath(bucketName: string, pathPrefix: string)

  /** The text that `parse_gcs_path` splits: every `gs://` removed, then stripped. */
  function Cleaned(gcsPath: string): string {
    Strip(Replace(gcsPath, Scheme, ""))
  }

  /**
   * `parse_gcs_path`: the bucket is everything before the first `/` of the
   * cleaned text, the prefix everything after it (or "" when there is no `/`).
   */
  function ParseGcsPath(gcsPath: string): (r: GcsPath)
    ensures '/' !in r.bucketName
    ensures '/' !in Cleaned(gcsPath) ==> r == GcsPath(Cleaned(gcsPath), "")
    ensures '/' in Cleaned(gcsPath) ==> r.bucketName + "/" + r.pathPrefix == Cleaned(gcsPath)
  {
    var cleaned := Cleaned(gcsPath);
    var parts := SplitOnce(cleaned, "/");
    ContainsChar(cleaned, '/');
    ContainsChar(parts[0], '/');
    GcsPath(parts[0], if |parts| > 1 then parts[1] else "")
  }

  /**
   * `table_directory` in `export_table_to_parquet`: the directory that is
   * cleared and then written, the bucket and the table separated by `/`.
   */
  function TableDirectory(destinationBucket: string, tableId: string): (dir: string)
    ensures |dir| == |destinationBucket| + 1 + |tableId|
    ensures dir[..|destinationBucket|] == destinationBucket
    ensures dir[|destinationBucket|] == '/'
    ensures dir[|destinationBucket| + 1..] == tableId
  {
    var dir := destinationBucket + "/" + tableId;
    assert dir[..|destinationBucket|] == destinationBucket;
    assert dir[|destinationBucket| + 1..] == tableId;
    dir
  }

  /**
   * `destination_uri` in `export_table_to_parquet`: `gs://`, the table
   * directory, `/`, then the sharded file name `<table>_part*.parquet`.
   */
  function DestinationUri(destinationBucket: string, tableId: string): (uri: string)
    ensures |uri| == |Scheme| + |TableDirectory(destinationBucket, tableId)| + 1 + |tableId| + 14
    ensures uri[..5] == Scheme
    ensures uri[5..|uri| - |tableId| - 14] == TableDirectory(destinationBucket, tableId) + "/"
    ensures uri[|uri| - |tableId| - 14..|uri| - 14] == tableId
    ensures uri[|uri| - 14..] == "_part*.parquet"
  {
    var dir := TableDirectory(destinationBucket, tableId);
    var uri := Scheme + dir + "/" + tableId + "_part*.parquet";
    assert uri[..5] == Scheme;
    assert uri[5..|uri| - |tableId| - 14] == dir + "/";
    assert uri[|uri| - |tableId| - 14..|uri| - 14] == tableId;
    uri
  }

  /**
   * Whitespace is stripped only at the ends of the cleaned text: the bucket
   * never starts with whitespace and the last component never ends with it.
   */
  lemma ParseGcsPathTrimmed(gcsPath: string)
    ensures var r := ParseGcsPath(gcsPath);
            r.bucketName == [] || !IsWhitespace(r.bucketName[0])
    ensures var r := ParseGcsPath(gcsPath);
            var last := if '/' in Cleaned(gcsPath) then r.pathPrefix else r.bucketName;
            last == [] || !IsWhitespace(last[|last| - 1])
  {
    var c := Cleaned(gcsPath);
    var r := ParseGcsPath(gcsPath);
    assert NoEdgeWhitespace(c);
    if '/' in c {
      assert c == r.bucketName + "/" + r.pathPrefix;
      if r.bucketName != [] {
        assert c[0] == r.bucketName[0];
      }
      if r.pathPrefix != [] {
        assert c[|c| - 1] == r.pathPrefix[|r.pathPrefix| - 1];
      }
    }
  }

  /** In `a + "/" + x` with no `/` in `a`, the first `/` sits at index `|a|`. */
  lemma FirstSlash(a: string, x: string)
    requires '/' !in a
    ensures (a + "/" + x)[|a|] == '/'
    ensures forall i :: 0 <= i < |a| ==> (a + "/" + x)[i] != '/'
  {
    forall i | 0 <= i < |a| ensures (a + "/" + x)[i] != '/' {
      assert (a + "/" + x)[i] == a[i];
    }
  }

  /** Two cuts at a first `/` agree only when both halves agree. */
  lemma CutUnique(a: string, x: string, b: string, y: string)
    requires '/' !in a && '/' !in b
    requires a + "/" + x == b + "/" + y
    ensures a == b && x == y
  {
    var s := a + "/" + x;
    FirstSlash(a, x);
    FirstSlash(b, y);
    assert |a| == |b|;
    assert a == s[..|a|] == b;
    assert x == s[|a| + 1..] == y;
  }

  /**
   * The directory `export_table_to_parquet` hands to `delete_from_gcs_path`
   * parses back into the bucket and table it was built from, provided the
   * bucket has no `/` and the directory has no `gs://` and no whitespace at
   * its ends.
   */
  lemma ParseTableDirectory(bucket: string, tableId: string)
    requires '/' !in bucket
    requires !Contains(TableDirectory(bucket, tableId), Scheme)
    requires NoEdgeWhitespace(TableDirectory(bucket, tableId))
    ensures ParseGcsPath(TableDirectory(bucket, tableId)) == GcsPath(bucket, tableId)
  {
    var dir := TableDirectory(bucket, tableId);
    StripNoEdge(dir);
    ParseCleaned(dir, bucket, tableId);
  }
  /**
   * The object-name prefix that `delete_from_gcs_path` lists and deletes
   * when `export_table_to_parquet` clears a table: the path prefix of the
   * parsed table directory, which ends with the table name and no `/`.
   */
  function ClearedPrefix(destinationBucket: string, tableId: string): string {
    ParseGcsPath(TableDirectory(destinationBucket, tableId)).pathPrefix
  }

  /** For a plain bucket, the cleared prefix is the table name itself. */
  lemma ClearedPrefixIsTable(bucket: string, tableId: string)
    requires '/' !in bucket
    requires !Contains(TableDirectory(bucket, tableId), Scheme) && NoEdgeWhitespace(TableDirectory(bucket, tableId))
    ensures ClearedPrefix(bucket, tableId) == tableId
  {
    ParseTableDirectory(bucket, tableId);
  }

  /** `list_blobs(prefix=...)`: an object is listed when its name starts with the prefix. */
  predicate Listed(prefix: string, name: string) {
    |prefix| <= |name| && name[..|prefix|] == prefix
  }

  /**
   * As written, clearing a table also lists, and so deletes, every object in
   * the directory of any other table of the same bucket whose name starts
   * with its name (in a plain bucket those objects are named `<other>/...`):
   * clearing `t` removes the files under `t2/`.
   */
  lemma ClearingOvershoots(bucket: string, tableId: string, other: string, name: string)
    requires '/' !in bucket && Listed(tableId, other)
    requires !Contains(TableDirectory(bucket, tableId), Scheme) && NoEdgeWhitespace(TableDirectory(bucket, tableId))
    ensures Listed(ClearedPrefix(bucket, tableId), other + "/" + name)
  {
    ClearedPrefixIsTable(bucket, tableId);
    ListedExtension(tableId, other, "/" + name);
  }

  /**
   * For a destination written `bucket/folder`, the form the docstring of
   * `export_table_to_parquet` gives, the cleared prefix is the folder, `/`
   * and the table name, again without a trailing `/`.
   */
  lemma ClearedPrefixInFolder(bucket: string, folder: string, tableId: string)
    requires '/' !in bucket
    requires !Contains(TableDirectory(bucket + "/" + folder, tableId), Scheme)
    requires NoEdgeWhitespace(TableDirectory(bucket + "/" + folder, tableId))
    ensures ClearedPrefix(bucket + "/" + folder, tableId) == folder + "/" + tableId
  {
    var d := TableDirectory(bucket + "/" + folder, tableId);
    StripNoEdge(d);
    assert d == bucket + "/" + (folder + "/" + tableId);
    ParseCleaned(d, bucket, folder + "/" + tableId);
  }

  /**
   * The overshoot inside a folder: clearing table `t` of `bucket/folder`
   * also deletes every object `folder/<other>/...` of a table `other` whose
   * name starts with `t`.
   */
  lemma ClearingOvershootsInFolder(bucket: string, folder: string, tableId: string, other: string, name: string)
    requires '/' !in bucket && Listed(tableId, other)
    requires !Contains(TableDirectory(bucket + "/" + folder, tableId), Scheme)
    requires NoEdgeWhitespace(TableDirectory(bucket + "/" + folder, tableId))
    ensures Listed(ClearedPrefix(bucket + "/" + folder, tableId), folder + "/" + other + "/" + name)
  {
    ClearedPrefixInFolder(bucket, folder, tableId);
    FolderOvershoot(folder, tableId, other, name);
  }

  /** `folder/t` lists `folder/<other>/...` whenever `t` lists `other`. */
  lemma FolderOvershoot(folder: string, tableId: string, other: string, name: string)
    requires Listed(tableId, other)
    ensures Listed(folder + "/" + tableId, folder + "/" + other + "/" + name)
  {
    ListedExtension(tableId, other, "/" + name);
    ListedInFolder(folder + "/", tableId, other + "/" + name);
    assert folder + "/" + other + "/" + name == (folder + "/") + (other + "/" + name);
  }

  /** Putting the same folder in front of a prefix and a name does not change whether it is listed. */
  lemma ListedInFolder(folder: string, prefix: string, name: string)
    ensures Listed(folder + prefix, folder + name) <==> Listed(prefix, name)
  {
    if |prefix| <= |name| {
      assert (folder + name)[..|folder + prefix|] == folder + name[..|prefix|];
      if (folder + name)[..|folder + prefix|] == folder + prefix {
        assert name[..|prefix|] == (folder + name[..|prefix|])[|folder|..];
      }
    }
  }

  /**
   * The corrected prefix inside a folder: an object `folder/<other>/...` is
   * listed exactly when `other` is the table being cleared.
   */
  lemma DirectoryPrefixExactInFolder(bucket: string, folder: string, tableId: string, other: string, name: string)
    requires '/' !in bucket && '/' !in tableId && '/' !in other
    requires !Contains(TableDirectory(bucket + "/" + folder, tableId), Scheme)
    requires NoEdgeWhitespace(TableDirectory(bucket + "/" + folder, tableId))
    ensures Listed(DirectoryPrefix(bucket + "/" + folder, tableId), folder + "/" + other + "/" + name) <==> tableId == other
  {
    ClearedPrefixInFolder(bucket, folder, tableId);
    FolderSlashExact(folder, tableId, other, name);
  }

  /** `folder/t/` lists `folder/<other>/...`, for slash-free `t` and `other`, exactly when they are equal. */
  lemma FolderSlashExact(folder: string, tableId: string, other: string, name: string)
    requires '/' !in tableId && '/' !in other
    ensures Listed(folder + "/" + tableId + "/", folder + "/" + other + "/" + name) <==> tableId == other
  {
    ListedSlashExact(tableId, other, name);
    ListedInFolder(folder + "/", tableId + "/", other + "/" + name);
    assert folder + "/" + tableId + "/" == (folder + "/") + (tableId + "/");
    assert folder + "/" + other + "/" + name == (folder + "/") + (other + "/" + name);
  }

  /** A prefix that lists a name lists every extension of it. */
  lemma ListedExtension(prefix: string, name: string, rest: string)
    requires Listed(prefix, name)
    ensures Listed(prefix, name + rest)
  {
    assert (name + rest)[..|prefix|] == name[..|prefix|];
  }

  /** The prefix that clears exactly the table's directory: the cleared prefix followed by `/`. */
  function DirectoryPrefix(destinationBucket: string, tableId: string): string {
    ClearedPrefix(destinationBucket, tableId) + "/"
  }

  /**
   * With the `/` after the table name, an object `<other>/...` in the
   * directory of a table of the same bucket is listed exactly when `other`
   * is the table being cleared.
   */
  lemma DirectoryPrefixExact(bucket: string, tableId: string, other: string, name: string)
    requires '/' !in bucket && '/' !in tableId && '/' !in other
    requires !Contains(TableDirectory(bucket, tableId), Scheme) && NoEdgeWhitespace(TableDirectory(bucket, tableId))
    ensures Listed(DirectoryPrefix(bucket, tableId), other + "/" + name) <==> tableId == other
  {
    ClearedPrefixIsTable(bucket, tableId);
    ListedSlashExact(tableId, other, name);
  }

  /** `t/` lists a name `o/n` with slash-free `t` and `o` exactly when `t` and `o` are equal. */
  lemma ListedSlashExact(tableId: string, other: string, name: string)
    requires '/' !in tableId && '/' !in other
    ensures Listed(tableId + "/", other + "/" + name) <==> tableId == other
  {
    var obj := other + "/" + name;
    if Listed(tableId + "/", obj) {
      var rest := obj[|tableId| + 1..];
      assert obj == obj[..|tableId| + 1] + rest;
      CutUnique(tableId, rest, other, name);
    }
    if tableId == other {
      assert obj[..|tableId| + 1] == tableId + "/";
    }
  }


  /** What an occurrence of the scheme at `j` says about the characters there. */
  lemma SchemeAt(s: string, j: nat)
    ensures MatchAt(s, Scheme, j) ==>
      j + 5 <= |s| && s[j] == 'g' && s[j + 1] == 's' && s[j + 2] == ':' && s[j + 3] == '/' && s[j + 4] == '/'
  {
    if MatchAt(s, Scheme, j) {
      var w := s[j..j + 5];
      assert w == Scheme;
      assert s[j] == w[0] && s[j + 1] == w[1] && s[j + 2] == w[2] && s[j + 3] == w[3] && s[j + 4] == w[4];
    }
  }

  /** Text without a colon holds no `gs://`. */
  lemma NoSchemeWithoutColon(s: string)
    requires ':' !in s
    ensures !Contains(s, Scheme)
  {
    forall j: nat ensures !MatchAt(s, Scheme, j) {
      SchemeAt(s, j);
    }
  }

  /**
   * No occurrence of the scheme starts in `[lo, hi)` when the text from `lo`
   * up to two characters past `hi` has no colon.
   */
  lemma NoSchemeBefore(s: string, lo: nat, hi: nat)
    requires lo <= hi && hi + 2 <= |s| && ':' !in s[lo..hi + 2]
    ensures forall j: nat :: lo <= j < hi ==> !MatchAt(s, Scheme, j)
  {
    forall j: nat | lo <= j < hi ensures !MatchAt(s, Scheme, j) {
      SchemeAt(s, j);
      assert s[j + 2] == s[lo..hi + 2][j + 2 - lo];
    }
  }

  /** A colon-free tail holds no occurrence of the scheme. */
  lemma NoSchemeFrom(s: string, k: nat)
    requires k <= |s| && ':' !in s[k..]
    ensures forall j: nat :: k <= j ==> !MatchAt(s, Scheme, j)
  {
    forall j: nat | k <= j ensures !MatchAt(s, Scheme, j) {
      SchemeAt(s, j);
      if j + 5 <= |s| {
        assert s[j + 2] == s[k..][j + 2 - k];
      }
    }
  }

  /** A tail without the scheme holds no occurrence of it. */
  lemma NoSchemeAfter(s: string, k: nat)
    requires k <= |s| && !Contains(s[k..], Scheme)
    ensures forall j: nat :: k <= j ==> !MatchAt(s, Scheme, j)
  {
    forall j: nat | k <= j ensures !MatchAt(s, Scheme, j) {
      if j + 5 <= |s| {
        assert s[j..j + 5] == s[k..][j - k..j - k + 5];
        assert !MatchAt(s[k..], Scheme, j - k);
      }
    }
  }

  /** Where the scheme occurs in `u + gs:// + t`: once after `u`, and nowhere in `t`. */
  lemma SchemeOnceLayout(u: string, t: string)
    requires ':' !in u && !Contains(t, Scheme)
    ensures var s := u + Scheme + t;
            MatchAt(s, Scheme, |u|) && (forall j: nat :: j < |u| ==> !MatchAt(s, Scheme, j))
            && (forall j: nat :: |u| + 5 <= j ==> !MatchAt(s, Scheme, j))
            && s[..|u|] == u && s[|u| + 5..] == t
  {
    var s := u + Scheme + t;
    var p := |u|;
    assert s[0..p + 2] == u + "gs";
    NoSchemeBefore(s, 0, p);
    assert s[p..p + 5] == Scheme;
    assert s[p + 5..] == t;
    NoSchemeAfter(s, p + 5);
    assert s[..p] == u;
  }

  /**
   * One `gs://` after colon-free text is removed and nothing else changes:
   * the text after it is copied as it is, never rescanned.
   */
  lemma ReplaceSchemeOnce(u: string, t: string)
    requires ':' !in u && !Contains(t, Scheme)
    ensures Replace(u + Scheme + t, Scheme, "") == u + t
  {
    var s := u + Scheme + t;
    var p := |u|;
    SchemeOnceLayout(u, t);
    ReplaceOne(s, Scheme, "", p);
    assert "" + s[p + 5..] == t;
  }

  /** Where the scheme occurs in `gs:// + m + gs:// + t`: at the front and after `m`, and nowhere else. */
  lemma SchemeTwiceLayout(m: string, t: string)
    requires ':' !in m && ':' !in t
    ensures var s := Scheme + m + Scheme + t;
            var p := 5 + |m|;
            MatchAt(s, Scheme, 0) && MatchAt(s, Scheme, p)
            && (forall j: nat :: 5 <= j < p ==> !MatchAt(s, Scheme, j))
            && (forall j: nat :: p + 5 <= j ==> !MatchAt(s, Scheme, j))
            && s[5..p] == m && s[p + 5..] == t
  {
    var s := Scheme + m + Scheme + t;
    var p := 5 + |m|;
    assert s[0..5] == Scheme;
    assert s[5..p + 2] == m + "gs";
    NoSchemeBefore(s, 5, p);
    assert s[p..p + 5] == Scheme;
    assert s[p + 5..] == t;
    NoSchemeFrom(s, p + 5);
    assert s[5..p] == m;
  }

  /** Every `gs://` is removed, not only a leading one. */
  lemma ReplaceSchemeTwice(m: string, t: string)
    requires ':' !in m && ':' !in t
    ensures Replace(Scheme + m + Scheme + t, Scheme, "") == m + t
  {
    var s := Scheme + m + Scheme + t;
    var p := 5 + |m|;
    SchemeTwiceLayout(m, t);
    ReplaceTwo(s, Scheme, "", p);
  }

  /**
   * Whenever the cleaned text is a bucket without `/`, a `/` and a prefix,
   * those are the two parts returned.
   */
  lemma ParseCleaned(gcsPath: string, bucket: string, prefix: string)
    requires '/' !in bucket
    requires Cleaned(gcsPath) == bucket + "/" + prefix
    ensures ParseGcsPath(gcsPath) == GcsPath(bucket, prefix)
  {
    assert Cleaned(gcsPath)[|bucket|] == '/';
    var r := ParseGcsPath(gcsPath);
    CutUnique(r.bucketName, r.pathPrefix, bucket, prefix);
  }

  /** A `gs://` in the middle of the prefix is removed as well as the leading one. */
  lemma ParseEveryScheme(bucket: string, m: string, t: string)
    requires '/' !in bucket && ':' !in bucket && ':' !in m && ':' !in t
    requires NoEdgeWhitespace(bucket + "/" + m + t)
    ensures ParseGcsPath(Scheme + bucket + "/" + m + Scheme + t) == GcsPath(bucket, m + t)
  {
    var mid := bucket + "/" + m;
    ReplaceSchemeTwice(mid, t);
    assert Scheme + bucket + "/" + m + Scheme + t == Scheme + mid + Scheme + t;
    assert mid + t == bucket + "/" + (m + t);
    StripNoEdge(mid + t);
    ParseCleaned(Scheme + mid + Scheme + t, bucket, m + t);
  }

  /**
   * Removal is one left-to-right pass: the `gs://` that the removal of
   * another one brings together survives it.
   */
  lemma ReplaceNoRescan(x: string)
    requires ':' !in x
    ensures Replace("g" + Scheme + "s://" + x, Scheme, "") == Scheme + x
  {
    NoSchemeAfterS(x);
    ReplaceSchemeOnce("g", "s://" + x);
    NoRescanLayout(x);
  }

  /** `s://` followed by colon-free text contains no `gs://`. */
  lemma NoSchemeAfterS(x: string)
    requires ':' !in x
    ensures !Contains("s://" + x, Scheme)
  {
    var t := "s://" + x;
    forall j: nat ensures !MatchAt(t, Scheme, j) {
      SchemeAt(t, j);
      if 2 <= j + 2 < |t| {
        assert t[j + 2] == ("//" + x)[j];
      }
    }
  }

  /** Regrouping the input of `ReplaceNoRescan`: `g` and `s://` join into a new `gs://`. */
  lemma NoRescanLayout(x: string)
    ensures "g" + Scheme + "s://" + x == "g" + Scheme + ("s://" + x)
    ensures "g" + ("s://" + x) == Scheme + x
  {
  }

  /**
   * A path written as whitespace, `gs://`, bucket, `/`, prefix, whitespace
   * parses into that bucket and prefix: only the outer whitespace is
   * stripped, whitespace inside the bucket or the prefix is kept, and the
   * split is at the first `/`.
   */
  lemma ParseStripsEnds(lead: string, bucket: string, prefix: string, trail: string)
    requires forall c :: c in lead ==> IsWhitespace(c)
    requires forall c :: c in trail ==> IsWhitespace(c)
    requires '/' !in bucket && ':' !in bucket && ':' !in prefix
    requires NoEdgeWhitespace(bucket + "/" + prefix)
    ensures ParseGcsPath(lead + Scheme + bucket + "/" + prefix + trail) == GcsPath(bucket, prefix)
  {
    var dir := bucket + "/" + prefix;
    var rest := dir + trail;
    assert ':' !in lead && ':' !in trail;
    assert ':' !in rest;
    NoSchemeWithoutColon(rest);
    ReplaceSchemeOnce(lead, rest);
    assert lead + Scheme + bucket + "/" + prefix + trail == lead + Scheme + rest;
    assert lead + rest == lead + dir + trail;
    StripAround(lead, dir, trail);
    ParseCleaned(lead + Scheme + rest, bucket, prefix);
  }

  /** The function is total: the empty path gives two empty components. */
  lemma ParseEmpty()
    ensures ParseGcsPath("") == GcsPath("", "")
  {
  }
}
