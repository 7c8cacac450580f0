/**
 * The pure part of `core/flatten.py`: the location of the Parquet files that
 * the flattening step reads, and `flatten_table`, whose only effect is a
 * blank line on standard output.
 */
module Flatten {

  /** Length of the fixed text around the two copies of the table name: "/", "/" and "*.parquet". */
  const FixedLength: nat := 11

  /**
   * `build_parquet_file_location`: the table's directory in the bucket,
   * followed by a glob over the files whose names start with the table name
   * and end in `.parquet`.
   */
  function BuildParquetFileLocation(destinationBucket: string, tableName: string): (parquetPath: string)
    ensures |parquetPath| == |destinationBucket| + 2 * |tableName| + FixedLength
    ensures parquetPath[..|destinationBucket| + |tableName| + 2] == destinationBucket + "/" + tableName + "/"
    ensures parquetPath[|destinationBucket| + |tableName| + 2..|parquetPath| - 9] == tableName
    ensures parquetPath[|parquetPath| - 9..] == "*.parquet"
  {
    var parquetPath := destinationBucket + "/" + tableName + "/" + tableName + "*.parquet";
    var d := |destinationBucket| + |tableName| + 2;
    assert parquetPath[..d] == destinationBucket + "/" + tableName + "/";
    assert parquetPath[d..|parquetPath| - 9] == tableName;
    parquetPath
  }

  /**
   * Within one bucket, two tables share a Parquet location exactly when they
   * are the same table.
   */
  lemma LocationInjective(destinationBucket: string, t1: string, t2: string)
    ensures BuildParquetFileLocation(destinationBucket, t1) == BuildParquetFileLocation(destinationBucket, t2)
            <==> t1 == t2
  {
    var p1 := BuildParquetFileLocation(destinationBucket, t1);
    var p2 := BuildParquetFileLocation(destinationBucket, t2);
    if p1 == p2 {
      assert |t1| == |t2|;
      var d := |destinationBucket| + |t1| + 2;
      assert t1 == p1[d..|p1| - 9] == p2[d..|p2| - 9] == t2;
    }
  }

  /**
   * `flatten_table`: the location is computed and discarded, and the text
   * written to standard output is a single newline, whatever the arguments;
   * the function returns nothing else.
   */
  function FlattenTable(destinationBucket: string, projectId: string, datasetId: string, tableName: string): (stdout: string)
    ensures stdout == "\n"
  {
    var parquetPath := BuildParquetFileLocation(destinationBucket, tableName);
    "\n"
  }
}
