/** The Azure blob container the rewrite uploads images to. The network call
    `ContainerClient.upload_blob` is modelled by its effect: the remote
    container maps blob names to contents, and every call is recorded in a
    ghost log of uploads. */
module BlobStore {

  newtype byte = x: int | 0 <= x < 256

  /** One `upload_blob(name, payload, ...)` call. */
  datatype Upload = Upload(name: string, payload: seq<byte>)

  /** The container's contents after `log` is replayed on `blobs` with
      `overwrite=True`: every upload replaces whatever had that name. */
  function ApplyUploads(blobs: map<string, seq<byte>>, log: seq<Upload>): map<string, seq<byte>> {
    if log == [] then blobs
    else ApplyUploads(blobs, log[..|log| - 1])[log[|log| - 1].name := log[|log| - 1].payload]
  }

  /** The names uploaded in `log`. */
  function Names(log: seq<Upload>): set<string> {
    set u | u in log :: u.name
  }

  /** A blob holds the payload of the last upload under its name ... */
  lemma {:induction false} LastUploadWins(blobs: map<string, seq<byte>>, log: seq<Upload>, t: nat)
    requires t < |log|
    requires forall u :: t < u < |log| ==> log[u].name != log[t].name
    ensures log[t].name in ApplyUploads(blobs, log)
    ensures ApplyUploads(blobs, log)[log[t].name] == log[t].payload
  {
    if t < |log| - 1 {
      LastUploadWins(blobs, log[..|log| - 1], t);
    }
  }

  /** ... and a blob no upload names keeps what it had (or stays absent). */
  lemma {:induction false} UntouchedBlobKept(blobs: map<string, seq<byte>>, log: seq<Upload>, name: string)
    requires name !in Names(log)
    ensures name in ApplyUploads(blobs, log) <==> name in blobs
    ensures name in blobs ==> ApplyUploads(blobs, log)[name] == blobs[name]
  {
    if log != [] {
      assert log[|log| - 1] in log;
      UntouchedBlobKept(blobs, log[..|log| - 1], name);
    }
  }

  /** Replaying two logs one after the other is replaying their concatenation. */
  lemma {:induction false} ApplyUploadsConcat(blobs: map<string, seq<byte>>, first: seq<Upload>, second: seq<Upload>)
    ensures ApplyUploads(blobs, first + second) == ApplyUploads(ApplyUploads(blobs, first), second)
  {
    if second == [] {
      assert first + second == first;
    } else {
      var n := |second| - 1;
      assert (first + second)[..|first + second| - 1] == first + second[..n];
      ApplyUploadsConcat(blobs, first, second[..n]);
    }
  }

  /** A client for one container. The account URL, container name and
      credential given to the real client's constructor are not modelled
      (nor is the fact that the source passes the module-level global
      `credential` rather than its own misspelt `credentail` parameter). */
  class ContainerClient {
    /** The container's contents on the server. */
    var blobs: map<string, seq<byte>>
    /** Every upload issued through this client, oldest first ... */
    ghost var log: seq<Upload>
    /** ... and the container's contents before the first of them. */
    ghost var initial: map<string, seq<byte>>

    /** The server holds what the uploads made of the initial contents. */
    ghost predicate Valid()
      reads this
    {
      blobs == ApplyUploads(initial, log)
    }

    constructor (blobs: map<string, seq<byte>>)
      ensures Valid() && this.blobs == blobs && log == []
    {
      this.blobs := blobs;
      log := [];
      initial := blobs;
    }

    /** `upload_blob(name, payload, overwrite=True)`: the blob is created or
        replaced. The content settings the source passes are not modelled
        (they are built with the misspelt keyword `conent_type`, so the
        intended `image/png` type is not set). */
    method UploadBlob(name: string, payload: seq<byte>)
      requires Valid()
      modifies this
      ensures Valid() && initial == old(initial)
      ensures blobs == old(blobs)[name := payload]
      ensures log == old(log) + [Upload(name, payload)]
    {
      blobs := blobs[name := payload];
      log := log + [Upload(name, payload)];
      assert log[..|log| - 1] == old(log);
    }
  }
}
