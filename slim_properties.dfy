/** What `replace_images` means, stated on the values of module `Slim`:
    what a rewritten output holds, which outputs change, where the images
    go, in which order they are uploaded, which uploads overwrite which,
    and that a second run is a no-op. */
module SlimProperties {
  import opened Wrappers
  import opened Json
  import opened OrderedMap
  import opened BlobStore
  import opened Notebook
  import opened Slim

  // One output

  /** A rewritten output is still display_data, its image/png entry is gone,
      the remaining mime types keep their order with text/html last unless
      it was already there, and `needs_background` is the only metadata
      entry removed. */
  lemma RewriteOutputSpec(o: OutputValue, count: Option<int>)
    requires UniqueKeys(o.data) && IsImageOutput(o)
    ensures var r := RewriteOutput(o, count);
      && r.outputType == "display_data"
      && UniqueKeys(r.data)
      && Keys(r.data) == Keys(o.data)[1..] + (if "text/html" in Keys(o.data) then [] else ["text/html"])
      && "image/png" !in Keys(r.data)
      && r.metadata.Keys == o.metadata.Keys - {"needs_background"}
      && forall m :: m in r.metadata ==> r.metadata[m] == o.metadata[m]
  {
    var rest := o.data[1..];
    var html := Str(ImgTag(ContainerUrl, BlobName(count)));
    assert Remove(o.data, "image/png") == rest;
    assert Keys(o.data) == ["image/png"] + Keys(rest);
    PutKeys(rest, "text/html", html);
    PutUnique(rest, "text/html", html);
  }

  /** Looking up any mime type in a rewritten output: image/png is gone,
      text/html is the `<img>` tag, every other entry is the old one. */
  lemma RewriteOutputGet(o: OutputValue, count: Option<int>, mime: string)
    requires UniqueKeys(o.data) && IsImageOutput(o)
    ensures Get(RewriteOutput(o, count).data, mime) ==
      if mime == "image/png" then None
      else if mime == "text/html" then Some(Str(ImgTag(ContainerUrl, BlobName(count))))
      else Get(o.data, mime)
  {
    var html := Str(ImgTag(ContainerUrl, BlobName(count)));
    GetPut(Remove(o.data, "image/png"), "text/html", html, mime);
    GetRemove(o.data, "image/png", mime);
  }

  /** The traversal changes an output exactly when it selects it. */
  lemma StepChangesExactlySelected(c: CellValue, o: OutputValue)
    requires UniqueKeys(o.data)
    ensures Step(c, o) != o <==> Selected(c, o)
  {
  }

  // Blob names

  lemma CountPartOfBlobName(count: Option<int>)
    ensures CountPart(BlobName(count)) == CountToString(count)
  {
  }

  /** Two cells' images share a blob exactly when the cells share an
      execution count (so all never-run cells share `None.png`). */
  lemma BlobNameInjective(count: Option<int>, count': Option<int>)
    ensures BlobName(count) == BlobName(count') <==> count == count'
  {
    if BlobName(count) == BlobName(count') {
      CountPartOfBlobName(count);
      CountPartOfBlobName(count');
      var s, s' := CountToString(count), CountToString(count');
      assert s == s';
      if count.Some? && count'.Some? {
        var n, n' := count.value, count'.value;
        if n < 0 {
          assert s[1..] == s'[1..];
        }
      }
    }
  }

  /** The HTML left in a rewritten output points at the blob its image went to. */
  lemma RewrittenTagNamesBlob(o: OutputValue, count: Option<int>)
    ensures Get(RewriteOutput(o, count).data, "text/html").Some?
    ensures Get(RewriteOutput(o, count).data, "text/html").value.Str?
    ensures TagSource(Get(RewriteOutput(o, count).data, "text/html").value.s) == Some(ContainerUrl + "/" + BlobName(count))
  {
    GetPut(Remove(o.data, "image/png"), "text/html", Str(ImgTag(ContainerUrl, BlobName(count))), "text/html");
  }

  // The whole notebook

  /** Every output's `data` is a dictionary: no mime type occurs twice. */
  predicate Dictionaries(nb: seq<CellValue>) {
    forall k, l :: 0 <= k < |nb| && 0 <= l < |nb[k].outputs| ==> UniqueKeys(nb[k].outputs[l].data)
  }

  lemma NonCodeCellUnchanged(c: CellValue)
    requires c.cellType != "code"
    ensures RewriteCell(c) == c
  {
  }

  /** The rewrite keeps the cells in order with their types and execution
      counts, and each cell's outputs in order; it rewrites the selected
      outputs, leaves every other output as it was, and so leaves non-code
      cells entirely alone. */
  lemma ShapePreserved(nb: seq<CellValue>)
    ensures |RewriteNotebook(nb)| == |nb|
    ensures forall k :: 0 <= k < |nb| ==>
      && RewriteNotebook(nb)[k].cellType == nb[k].cellType
      && RewriteNotebook(nb)[k].executionCount == nb[k].executionCount
      && |RewriteNotebook(nb)[k].outputs| == |nb[k].outputs|
    ensures forall k, l :: 0 <= k < |nb| && 0 <= l < |nb[k].outputs| ==>
      RewriteNotebook(nb)[k].outputs[l] ==
        if Selected(nb[k], nb[k].outputs[l]) then RewriteOutput(nb[k].outputs[l], nb[k].executionCount)
        else nb[k].outputs[l]
    ensures forall k :: 0 <= k < |nb| && nb[k].cellType != "code" ==> RewriteNotebook(nb)[k] == nb[k]
  {
  }

  /** After the rewrite an output is settled: it is no longer selected, it
      still satisfies what the traversal needs, and its `data` is still a
      dictionary. */
  lemma StepSettles(c: CellValue, o: OutputValue)
    requires UniqueKeys(o.data) && OutputOk(c, o)
    ensures UniqueKeys(Step(c, o).data) && OutputOk(c, Step(c, o)) && !Selected(c, Step(c, o))
  {
    if Selected(c, o) {
      var r := Step(c, o);
      RewriteOutputSpec(o, c.executionCount);
      RewriteOutputGet(o, c.executionCount, "text/html");
      assert "text/html" in Keys(r.data);
      assert Keys(r.data)[0] == r.data[0].0;
    }
  }

  /** The rewritten notebook can be rewritten again, and none of its outputs is selected. */
  lemma RewriteSettles(nb: seq<CellValue>)
    requires Rewritable(nb) && Dictionaries(nb)
    ensures Rewritable(RewriteNotebook(nb)) && Dictionaries(RewriteNotebook(nb))
    ensures forall k, l :: 0 <= k < |nb| && 0 <= l < |nb[k].outputs| ==>
      !Selected(RewriteNotebook(nb)[k], RewriteNotebook(nb)[k].outputs[l])
  {
    var r := RewriteNotebook(nb);
    forall k, l | 0 <= k < |nb| && 0 <= l < |nb[k].outputs|
      ensures UniqueKeys(r[k].outputs[l].data) && OutputOk(r[k], r[k].outputs[l]) && !Selected(r[k], r[k].outputs[l])
    {
      assert OutputOk(nb[k], nb[k].outputs[l]);
      StepSettles(nb[k], nb[k].outputs[l]);
    }
  }

  lemma {:induction false} NoSelectedOutputUploads(c: CellValue, os: seq<OutputValue>, b64decode: string -> seq<byte>)
    requires forall l :: 0 <= l < |os| ==> OutputOk(c, os[l]) && !Selected(c, os[l])
    ensures OutputUploads(c, os, b64decode) == []
  {
    if os != [] {
      NoSelectedOutputUploads(c, os[..|os| - 1], b64decode);
    }
  }

  /** A notebook with no selected output issues no upload ... */
  lemma {:induction false} NoSelectedNoUploads(nb: seq<CellValue>, b64decode: string -> seq<byte>)
    requires Rewritable(nb)
    requires forall k, l :: 0 <= k < |nb| && 0 <= l < |nb[k].outputs| ==> !Selected(nb[k], nb[k].outputs[l])
    ensures Uploads(nb, b64decode) == []
  {
    if nb != [] {
      var n := |nb| - 1;
      NoSelectedNoUploads(nb[..n], b64decode);
      if nb[n].cellType == "code" {
        NoSelectedOutputUploads(nb[n], nb[n].outputs, b64decode);
      }
    }
  }

  /** ... and is left as it is. */
  lemma NoSelectedUnchanged(nb: seq<CellValue>)
    requires forall k, l :: 0 <= k < |nb| && 0 <= l < |nb[k].outputs| ==> !Selected(nb[k], nb[k].outputs[l])
    ensures RewriteNotebook(nb) == nb
  {
    forall k | 0 <= k < |nb|
      ensures RewriteCell(nb[k]) == nb[k]
    {
      assert RewriteCell(nb[k]).outputs == nb[k].outputs;
    }
  }

  /** Running the script a second time on its own output changes nothing
      and uploads nothing. */
  lemma SecondRunChangesNothing(nb: seq<CellValue>, b64decode: string -> seq<byte>)
    requires Rewritable(nb) && Dictionaries(nb)
    ensures Rewritable(RewriteNotebook(nb))
    ensures RewriteNotebook(RewriteNotebook(nb)) == RewriteNotebook(nb)
    ensures Uploads(RewriteNotebook(nb), b64decode) == []
  {
    var r := RewriteNotebook(nb);
    RewriteSettles(nb);
    assert forall k, l :: 0 <= k < |r| && 0 <= l < |r[k].outputs| ==> !Selected(r[k], r[k].outputs[l]);
    NoSelectedNoUploads(r, b64decode);
    NoSelectedUnchanged(r);
  }

  // Upload order

  /** `v` is the position (cell, output) of a selected output of `nb`. */
  predicate IsVisit(nb: seq<CellValue>, v: (nat, nat)) {
    v.0 < |nb| && v.1 < |nb[v.0].outputs| && Selected(nb[v.0], nb[v.0].outputs[v.1])
  }

  /** Position `v` comes before position `w` in cell-then-output order. */
  predicate Before(v: (nat, nat), w: (nat, nat)) {
    v.0 < w.0 || (v.0 == w.0 && v.1 < w.1)
  }

  /** The positions of the selected outputs among `os`, the first outputs of
      cell `k`, in order. */
  function CellVisits(k: nat, c: CellValue, os: seq<OutputValue>): (vs: seq<(nat, nat)>)
    ensures forall t :: 0 <= t < |vs| ==> vs[t].0 == k && vs[t].1 < |os| && Selected(c, os[vs[t].1])
  {
    if os == [] then []
    else
      var n := |os| - 1;
      CellVisits(k, c, os[..n]) + (if Selected(c, os[n]) then [(k, n)] else [])
  }

  /** The positions of the selected outputs of `nb`, in the order the
      traversal reaches them. */
  function Visits(nb: seq<CellValue>): (vs: seq<(nat, nat)>)
    ensures forall t :: 0 <= t < |vs| ==> IsVisit(nb, vs[t])
  {
    if nb == [] then []
    else
      var n := |nb| - 1;
      var vs := Visits(nb[..n]) + CellVisits(n, nb[n], nb[n].outputs);
      assert forall t :: 0 <= t < |Visits(nb[..n])| ==> vs[t] == Visits(nb[..n])[t] && IsVisit(nb[..n], vs[t]);
      vs
  }

  /** The upload the traversal issues for the selected output at `v`. */
  function VisitUpload(nb: seq<CellValue>, v: (nat, nat), b64decode: string -> seq<byte>): Upload
    requires Rewritable(nb) && IsVisit(nb, v)
  {
    assert OutputOk(nb[v.0], nb[v.0].outputs[v.1]);
    UploadFor(nb[v.0].executionCount, nb[v.0].outputs[v.1], b64decode)
  }

  lemma {:induction false} OutputUploadsFollowVisits(k: nat, c: CellValue, os: seq<OutputValue>, b64decode: string -> seq<byte>)
    requires forall l :: 0 <= l < |os| ==> OutputOk(c, os[l])
    ensures |OutputUploads(c, os, b64decode)| == |CellVisits(k, c, os)|
    ensures forall t :: 0 <= t < |CellVisits(k, c, os)| ==>
      && OutputOk(c, os[CellVisits(k, c, os)[t].1])
      && OutputUploads(c, os, b64decode)[t] == UploadFor(c.executionCount, os[CellVisits(k, c, os)[t].1], b64decode)
  {
    if os != [] {
      var n := |os| - 1;
      OutputUploadsFollowVisits(k, c, os[..n], b64decode);
      assert OutputOk(c, os[n]);
      var vs, us := CellVisits(k, c, os[..n]), OutputUploads(c, os[..n], b64decode);
      forall t | 0 <= t < |vs|
        ensures CellVisits(k, c, os)[t] == vs[t] && OutputUploads(c, os, b64decode)[t] == us[t]
        ensures os[vs[t].1] == os[..n][vs[t].1]
      {
      }
    }
  }

  /** `us` is the sequence of uploads for the selected outputs at `vs`. */
  predicate Follows(nb: seq<CellValue>, us: seq<Upload>, vs: seq<(nat, nat)>, b64decode: string -> seq<byte>)
    requires Rewritable(nb)
  {
    |us| == |vs| && forall t :: 0 <= t < |vs| ==> IsVisit(nb, vs[t]) && us[t] == VisitUpload(nb, vs[t], b64decode)
  }

  lemma FollowsConcat(nb: seq<CellValue>, us: seq<Upload>, vs: seq<(nat, nat)>, us': seq<Upload>, vs': seq<(nat, nat)>, b64decode: string -> seq<byte>)
    requires Rewritable(nb) && Follows(nb, us, vs, b64decode) && Follows(nb, us', vs', b64decode)
    ensures Follows(nb, us + us', vs + vs', b64decode)
  {
  }

  /** What holds of the uploads of a prefix of the notebook holds in the whole notebook. */
  lemma FollowsPrefix(nb: seq<CellValue>, n: nat, us: seq<Upload>, vs: seq<(nat, nat)>, b64decode: string -> seq<byte>)
    requires Rewritable(nb) && n <= |nb|
    requires Rewritable(nb[..n]) && Follows(nb[..n], us, vs, b64decode)
    ensures Follows(nb, us, vs, b64decode)
  {
  }

  /** The uploads of one cell follow its visits. */
  lemma CellFollows(nb: seq<CellValue>, n: nat, b64decode: string -> seq<byte>)
    requires Rewritable(nb) && n < |nb|
    ensures Follows(nb, CellUploads(nb[n], b64decode), CellVisits(n, nb[n], nb[n].outputs), b64decode)
  {
    var c := nb[n];
    var cvs := CellVisits(n, c, c.outputs);
    assert CellOk(c);
    if c.cellType == "code" {
      OutputUploadsFollowVisits(n, c, c.outputs, b64decode);
    } else {
      assert |cvs| > 0 ==> Selected(c, c.outputs[cvs[0].1]);
    }
  }

  /** Exactly one upload per selected output, issued in the order of
      `Visits`: the `t`-th upload is the one for the `t`-th selected output. */
  lemma {:induction false} UploadsFollowVisits(nb: seq<CellValue>, b64decode: string -> seq<byte>)
    requires Rewritable(nb)
    ensures |Uploads(nb, b64decode)| == |Visits(nb)|
    ensures forall t :: 0 <= t < |Visits(nb)| ==> Uploads(nb, b64decode)[t] == VisitUpload(nb, Visits(nb)[t], b64decode)
  {
    if nb != [] {
      var n := |nb| - 1;
      assert Rewritable(nb[..n]);
      UploadsFollowVisits(nb[..n], b64decode);
      FollowsPrefix(nb, n, Uploads(nb[..n], b64decode), Visits(nb[..n]), b64decode);
      CellFollows(nb, n, b64decode);
      FollowsConcat(nb, Uploads(nb[..n], b64decode), Visits(nb[..n]),
        CellUploads(nb[n], b64decode), CellVisits(n, nb[n], nb[n].outputs), b64decode);
    }
  }

  lemma {:induction false} CellVisitsComplete(k: nat, c: CellValue, os: seq<OutputValue>, l: nat)
    requires l < |os| && Selected(c, os[l])
    ensures (k, l) in CellVisits(k, c, os)
  {
    var n := |os| - 1;
    if l < n {
      assert os[..n][l] == os[l];
      CellVisitsComplete(k, c, os[..n], l);
    }
  }

  /** Every selected output is visited. */
  lemma {:induction false} VisitsComplete(nb: seq<CellValue>, v: (nat, nat))
    requires IsVisit(nb, v)
    ensures v in Visits(nb)
  {
    var n := |nb| - 1;
    if v.0 == n {
      CellVisitsComplete(n, nb[n], nb[n].outputs, v.1);
    } else {
      assert nb[..n][v.0] == nb[v.0];
      VisitsComplete(nb[..n], v);
    }
  }

  lemma {:induction false} CellVisitsOrdered(k: nat, c: CellValue, os: seq<OutputValue>)
    ensures forall s, t :: 0 <= s < t < |CellVisits(k, c, os)| ==> CellVisits(k, c, os)[s].1 < CellVisits(k, c, os)[t].1
  {
    if os != [] {
      CellVisitsOrdered(k, c, os[..|os| - 1]);
    }
  }

  /** The visits go cell by cell and, within a cell, output by output; so
      with `VisitsComplete`, each selected output is visited exactly once. */
  lemma {:induction false} VisitsOrdered(nb: seq<CellValue>)
    ensures forall s, t :: 0 <= s < t < |Visits(nb)| ==> Before(Visits(nb)[s], Visits(nb)[t])
  {
    if nb != [] {
      var n := |nb| - 1;
      VisitsOrdered(nb[..n]);
      CellVisitsOrdered(n, nb[n], nb[n].outputs);
      var vs, cvs := Visits(nb[..n]), CellVisits(n, nb[n], nb[n].outputs);
      forall s, t | 0 <= s < t < |Visits(nb)|
        ensures Before(Visits(nb)[s], Visits(nb)[t])
      {
        if t < |vs| {
          assert Visits(nb)[s] == vs[s] && Visits(nb)[t] == vs[t];
        } else if s < |vs| {
          assert Visits(nb)[s] == vs[s] && IsVisit(nb[..n], vs[s]);
          assert Visits(nb)[t] == cvs[t - |vs|];
        } else {
          assert Visits(nb)[s] == cvs[s - |vs|] && Visits(nb)[t] == cvs[t - |vs|];
        }
      }
    }
  }

  lemma UploadName(nb: seq<CellValue>, b64decode: string -> seq<byte>, t: nat)
    requires Rewritable(nb) && t < |Visits(nb)|
    ensures |Uploads(nb, b64decode)| == |Visits(nb)|
    ensures Uploads(nb, b64decode)[t].name == BlobName(nb[Visits(nb)[t].0].executionCount)
  {
    UploadsFollowVisits(nb, b64decode);
  }

  /** The `t`-th upload goes to the blob named after the visited output's
      cell, carries that output's decoded PNG, and the output is left with
      an `<img>` tag pointing at that same blob. */
  lemma UploadMatchesTag(nb: seq<CellValue>, b64decode: string -> seq<byte>, t: nat)
    requires Rewritable(nb) && t < |Visits(nb)|
    ensures var v := Visits(nb)[t];
      var o := nb[v.0].outputs[v.1];
      && OutputOk(nb[v.0], o)
      && t < |Uploads(nb, b64decode)|
      && Uploads(nb, b64decode)[t].name == BlobName(nb[v.0].executionCount)
      && Uploads(nb, b64decode)[t].payload == b64decode(PngPayload(o))
      && RewriteNotebook(nb)[v.0].outputs[v.1] == RewriteOutput(o, nb[v.0].executionCount)
      && Get(RewriteNotebook(nb)[v.0].outputs[v.1].data, "text/html") == Some(Str(ImgTag(ContainerUrl, Uploads(nb, b64decode)[t].name)))
  {
    var v := Visits(nb)[t];
    var o := nb[v.0].outputs[v.1];
    assert CellOk(nb[v.0]);
    UploadsFollowVisits(nb, b64decode);
    GetPut(Remove(o.data, "image/png"), "text/html", Str(ImgTag(ContainerUrl, BlobName(nb[v.0].executionCount))), "text/html");
  }

  /** Two uploads go to the same blob exactly when their cells have the same
      execution count; in particular two images of one cell share a blob. */
  lemma UploadNamesCollide(nb: seq<CellValue>, b64decode: string -> seq<byte>, s: nat, t: nat)
    requires Rewritable(nb) && s < |Visits(nb)| && t < |Visits(nb)|
    ensures |Uploads(nb, b64decode)| == |Visits(nb)|
    ensures Uploads(nb, b64decode)[s].name == Uploads(nb, b64decode)[t].name
      <==> nb[Visits(nb)[s].0].executionCount == nb[Visits(nb)[t].0].executionCount
  {
    UploadName(nb, b64decode, s);
    UploadName(nb, b64decode, t);
    BlobNameInjective(nb[Visits(nb)[s].0].executionCount, nb[Visits(nb)[t].0].executionCount);
  }

  /** After the run, the blob of a cell's execution count holds the image of
      the last selected output whose cell has that count: a later image
      overwrites an earlier one. */
  lemma StoredImage(nb: seq<CellValue>, b64decode: string -> seq<byte>, blobs: map<string, seq<byte>>, t: nat)
    requires Rewritable(nb) && t < |Visits(nb)|
    requires forall s :: t < s < |Visits(nb)| ==>
      nb[Visits(nb)[s].0].executionCount != nb[Visits(nb)[t].0].executionCount
    ensures var v := Visits(nb)[t];
      var name := BlobName(nb[v.0].executionCount);
      && OutputOk(nb[v.0], nb[v.0].outputs[v.1])
      && name in ApplyUploads(blobs, Uploads(nb, b64decode))
      && ApplyUploads(blobs, Uploads(nb, b64decode))[name] == b64decode(PngPayload(nb[v.0].outputs[v.1]))
  {
    var us := Uploads(nb, b64decode);
    UploadMatchesTag(nb, b64decode, t);
    UploadsFollowVisits(nb, b64decode);
    forall s | t < s < |us|
      ensures us[s].name != us[t].name
    {
      UploadNamesCollide(nb, b64decode, s, t);
    }
    LastUploadWins(blobs, us, t);
  }

  /** A blob whose name belongs to no visited cell is left as it was. */
  lemma OtherBlobsKept(nb: seq<CellValue>, b64decode: string -> seq<byte>, blobs: map<string, seq<byte>>, name: string)
    requires Rewritable(nb)
    requires forall t :: 0 <= t < |Visits(nb)| ==> name != BlobName(nb[Visits(nb)[t].0].executionCount)
    ensures name in ApplyUploads(blobs, Uploads(nb, b64decode)) <==> name in blobs
    ensures name in blobs ==> ApplyUploads(blobs, Uploads(nb, b64decode))[name] == blobs[name]
  {
    var us := Uploads(nb, b64decode);
    UploadsFollowVisits(nb, b64decode);
    forall u | u in us
      ensures u.name != name
    {
      var t :| 0 <= t < |us| && us[t] == u;
      UploadName(nb, b64decode, t);
    }
    UntouchedBlobKept(blobs, us, name);
  }
}
