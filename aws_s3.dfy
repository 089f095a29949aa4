/** The S3 helper: the bucket is a map from object key to content, held by the
    (single, shared) S3 client. Putting and deleting report failures as
    `Result.error`, never by throwing. */
module AwsS3 {
  import opened Outcomes
  import opened JsRuntime
  import opened Interfaces

  const REGION: string := "ap-south-1"

  datatype UploadResponse = UploadResponse(s3Url: string, bucketPath: string)

  /** The public URL of the object `key` in `bucket`. */
  function S3Url(bucket: string, key: string): string {
    "https://" + bucket + ".s3." + REGION + ".amazonaws.com/" + key
  }

  /** The object's path within S3: bucket, slash, key. */
  function BucketPath(bucket: string, key: string): string {
    bucket + "/" + key
  }

  /** S3 bucket names hold no slash, so the first slash of a bucket path ends
      the bucket name and the rest is the key. */
  lemma BucketPathSplits(bucket: string, key: string)
    requires '/' !in bucket
    ensures IndexOf(BucketPath(bucket, key), "/") == |bucket|
    ensures BucketPath(bucket, key)[..|bucket|] == bucket
    ensures BucketPath(bucket, key)[|bucket| + 1..] == key
  {
    var p := BucketPath(bucket, key);
    MatchOneChar(p, "/", |bucket|);
    forall j | 0 <= j < |bucket| ensures !MatchAt(p, "/", j) {
      MatchOneChar(p, "/", j);
      assert p[j] == bucket[j];
    }
    assert p[..|bucket|] == bucket;
    assert p[|bucket| + 1..] == key;
  }

  class Bucket {
    /** `process.env.MOBIGIC_S3_BUCKET_NAME`. */
    const name: string
    var objects: map<string, Bytes>

    constructor (name: string)
      ensures this.name == name && objects == map[]
    {
      this.name := name;
      objects := map[];
    }

    /** `uploadToS3(key, path)`: put the file's content under `key` and report
        where it is. An existing object under the same key is replaced. */
    method UploadToS3(key: string, content: Bytes, fault: Fault) returns (r: Result<UploadResponse>)
      modifies this
      ensures fault.None? ==> r == Ok(UploadResponse(S3Url(name, key), BucketPath(name, key)))
      ensures fault.None? ==> objects == old(objects)[key := content]
      ensures fault.Some? ==> r == Err(Raw(fault.value)) && unchanged(this)
    {
      if fault.Some? {
        r := Err(Raw(fault.value));
        return;
      }
      objects := objects[key := content];
      r := Ok(UploadResponse(S3Url(name, key), BucketPath(name, key)));
    }

    /** `deleteFromS3(key)`: remove the object `key`; deleting a key that holds
        no object succeeds and changes nothing. */
    method DeleteFromS3(key: string, fault: Fault) returns (r: Result<()>)
      modifies this
      ensures fault.None? ==> r == Ok(()) && objects == old(objects) - {key}
      ensures fault.Some? ==> r == Err(Raw(fault.value)) && unchanged(this)
    {
      if fault.Some? {
        r := Err(Raw(fault.value));
        return;
      }
      objects := objects - {key};
      r := Ok(());
    }
  }
}
