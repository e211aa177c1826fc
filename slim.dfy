/** `replace_images` from scripts/slim.py: for every display_data output of a
    code cell whose first mime type is image/png, move the PNG out of the
    notebook into blob storage and leave an HTML `<img>` tag pointing at it.

    The first half states the rewrite on values (what every output becomes,
    which uploads are issued); the second half is the in-place traversal,
    proved to perform exactly that rewrite and those uploads. */
module Slim {
  import opened Wrappers
  import opened Json
  import opened OrderedMap
  import opened Decimal
  import opened BlobStore
  import opened Notebook

  /** The public URL of the `assets` container. */
  const ContainerUrl: string := "https://ai4edatasetspublicassets.blob.core.windows.net/assets"

  /** Every blob name starts with this (the notebook's name is hard-wired). */
  const BlobPrefix: string := "notebook-output/customizable-rtc-sentine1.ipynb/"

  const TagOpen: string := "<img src=\""
  const TagClose: string := "\"/>"

  /** How an f-string renders `execution_count`: `str()` of the int, or
      `None` for a cell that was never run. */
  function CountToString(count: Option<int>): (s: string)
    ensures |s| > 0
    ensures count.None? <==> s[0] == 'N'
  {
    match count
    case None => "None"
    case Some(n) => IntToString(n)
  }

  /** The blob a cell's image is uploaded to; it depends on nothing but the
      cell's execution count. */
  function BlobName(count: Option<int>): (name: string)
    ensures |name| >= |BlobPrefix| + 5
    ensures name[..|BlobPrefix|] == BlobPrefix && name[|name| - 4..] == ".png"
  {
    var name := BlobPrefix + CountToString(count) + ".png";
    assert name[..|BlobPrefix|] == BlobPrefix;
    name
  }

  /** The blob-name part between the fixed prefix and `.png`. */
  function CountPart(name: string): string
    requires |name| >= |BlobPrefix| + 4
  {
    name[|BlobPrefix|..|name| - 4]
  }

  /** `<img src="{url}/{name}"/>`. */
  function ImgTag(url: string, name: string): (html: string)
    ensures TagSource(html) == Some(url + "/" + name)
  {
    var html := TagOpen + (url + "/" + name) + TagClose;
    assert html[..|TagOpen|] == TagOpen;
    assert html[|html| - |TagClose|..] == TagClose;
    assert html[|TagOpen|..|html| - |TagClose|] == url + "/" + name;
    html
  }

  /** The `src` of an `<img src="..."/>` tag, read back out of the HTML. */
  function TagSource(html: string): Option<string> {
    if |html| >= |TagOpen| + |TagClose| && html[..|TagOpen|] == TagOpen && html[|html| - |TagClose|..] == TagClose
    then Some(html[|TagOpen|..|html| - |TagClose|])
    else None
  }

  /** The test of line 22 on one output: `output_type` is display_data and
      the first key of `data` is image/png. */
  predicate IsImageOutput(o: OutputValue) {
    o.outputType == "display_data" && |o.data| > 0 && o.data[0].0 == "image/png"
  }

  /** The outputs the rewrite touches: image outputs of code cells. */
  predicate Selected(c: CellValue, o: OutputValue) {
    c.cellType == "code" && IsImageOutput(o)
  }

  /** What the rewrite needs of one output so that it does not raise: a
      display_data output of a code cell has at least one
      mime type (else `list(output["data"])[0]` raises IndexError); and an
      image/png value to be moved is a string (else `.encode()` raises). */
  predicate OutputOk(c: CellValue, o: OutputValue) {
    && (c.cellType == "code" && o.outputType == "display_data" ==> |o.data| > 0)
    && (Selected(c, o) ==> o.data[0].1.Str?)
  }

  predicate CellOk(c: CellValue) {
    forall l :: 0 <= l < |c.outputs| ==> OutputOk(c, c.outputs[l])
  }

  /** The notebooks the rewrite runs on without raising. */
  predicate Rewritable(nb: seq<CellValue>) {
    forall k :: 0 <= k < |nb| ==> CellOk(nb[k])
  }

  /** What a selected output becomes (lines 24-26 and 31). Its meaning is
      stated by `RewriteOutputSpec`. */
  function RewriteOutput(o: OutputValue, count: Option<int>): OutputValue {
    OutputValue(
      "display_data",
      Put(Remove(o.data, "image/png"), "text/html", Str(ImgTag(ContainerUrl, BlobName(count)))),
      o.metadata - {"needs_background"})
  }

  /** What the traversal does to one output of cell `c`. */
  function Step(c: CellValue, o: OutputValue): OutputValue {
    if Selected(c, o) then RewriteOutput(o, c.executionCount) else o
  }

  function RewriteCell(c: CellValue): CellValue {
    c.(outputs := seq(|c.outputs|, l requires 0 <= l < |c.outputs| => Step(c, c.outputs[l])))
  }

  /** The notebook after `replace_images`. */
  function RewriteNotebook(nb: seq<CellValue>): seq<CellValue> {
    seq(|nb|, k requires 0 <= k < |nb| => RewriteCell(nb[k]))
  }

  /** The string under image/png, which line 24 pops: the value of the
      first entry, whose key line 22 tested. */
  function PngPayload(o: OutputValue): (b64png: string)
    requires IsImageOutput(o) && o.data[0].1.Str?
    ensures o.data[0] == ("image/png", Str(b64png))
  {
    Get(o.data, "image/png").value.s
  }

  /** The upload issued for a selected output of a cell with `count`
      (lines 27-30); `b64decode` stands for `base64.b64decode(s.encode())`. */
  function UploadFor(count: Option<int>, o: OutputValue, b64decode: string -> seq<byte>): (u: Upload)
    requires IsImageOutput(o) && o.data[0].1.Str?
  {
    Upload(BlobName(count), b64decode(PngPayload(o)))
  }

  /** The uploads issued while visiting outputs `os` of cell `c`, in order. */
  function OutputUploads(c: CellValue, os: seq<OutputValue>, b64decode: string -> seq<byte>): seq<Upload>
    requires forall l :: 0 <= l < |os| ==> OutputOk(c, os[l])
  {
    if os == [] then []
    else
      var o := os[|os| - 1];
      assert OutputOk(c, o);
      OutputUploads(c, os[..|os| - 1], b64decode)
        + (if Selected(c, o) then [UploadFor(c.executionCount, o, b64decode)] else [])
  }

  function CellUploads(c: CellValue, b64decode: string -> seq<byte>): seq<Upload>
    requires CellOk(c)
  {
    if c.cellType == "code" then OutputUploads(c, c.outputs, b64decode) else []
  }

  /** The uploads `replace_images` issues on `nb`, in the order it issues them. */
  function Uploads(nb: seq<CellValue>, b64decode: string -> seq<byte>): seq<Upload>
    requires Rewritable(nb)
  {
    if nb == [] then []
    else Uploads(nb[..|nb| - 1], b64decode) + CellUploads(nb[|nb| - 1], b64decode)
  }

  /** Visiting one more output appends its upload, if any. */
  lemma OutputUploadsSnoc(log: seq<Upload>, c: CellValue, os: seq<OutputValue>, j: nat, b64decode: string -> seq<byte>)
    requires j < |os| && forall l :: 0 <= l < |os| ==> OutputOk(c, os[l])
    ensures log + OutputUploads(c, os[..j + 1], b64decode) == log + OutputUploads(c, os[..j], b64decode)
      + (if Selected(c, os[j]) then [UploadFor(c.executionCount, os[j], b64decode)] else [])
  {
    assert os[..j + 1][..j] == os[..j];
  }

  /** Visiting one more cell appends its uploads. */
  lemma UploadsSnoc(log: seq<Upload>, nb: seq<CellValue>, i: nat, b64decode: string -> seq<byte>)
    requires i < |nb| && Rewritable(nb)
    ensures Rewritable(nb[..i]) && Rewritable(nb[..i + 1])
    ensures log + Uploads(nb[..i], b64decode) + CellUploads(nb[i], b64decode) == log + Uploads(nb[..i + 1], b64decode)
  {
    assert nb[..i + 1][..i] == nb[..i];
  }

  /** Lines 23-31, the edit of one selected output, step by step. The
      `print` of line 23 is not modelled. */
  method ReplaceImage(output: Output, executionCount: Option<int>, cc: ContainerClient, b64decode: string -> seq<byte>)
    requires IsImageOutput(output.Value()) && output.data[0].1.Str?
    requires cc.Valid()
    modifies output, cc
    ensures output.Value() == RewriteOutput(old(output.Value()), executionCount)
    ensures cc.Valid() && cc.initial == old(cc.initial)
    ensures cc.log == old(cc.log) + [UploadFor(executionCount, old(output.Value()), b64decode)]
  {
    var b64png := Get(output.data, "image/png").value;
    output.data := Remove(output.data, "image/png");
    output.metadata := output.metadata - {"needs_background"};
    output.outputType := "display_data";
    var png := b64decode(b64png.s);
    var url := ContainerUrl;
    var name := BlobName(executionCount);
    cc.UploadBlob(name, png);
    output.data := Put(output.data, "text/html", Str(ImgTag(url, name)));
  }

  /** Line 22 and, when it holds, lines 23-31, for one output of cell `c`. */
  method VisitOutput(ghost c: CellValue, executionCount: Option<int>, output: Output, cc: ContainerClient, b64decode: string -> seq<byte>)
    requires c.cellType == "code" && c.executionCount == executionCount && OutputOk(c, output.Value())
    requires cc.Valid()
    modifies output, cc
    ensures output.Value() == Step(c, old(output.Value()))
    ensures cc.Valid() && cc.initial == old(cc.initial)
    ensures cc.log == old(cc.log) + if Selected(c, old(output.Value())) then [UploadFor(c.executionCount, old(output.Value()), b64decode)] else []
  {
    if output.outputType == "display_data" && Keys(output.data)[0] == "image/png" {
      ReplaceImage(output, executionCount, cc, b64decode);
    }
  }

  /** Lines 20-31: the loop over the outputs of code cell `c`, whose output
      objects are `outputs`. */
  method ReplaceOutputs(ghost c: CellValue, outputs: seq<Output>, executionCount: Option<int>, cc: ContainerClient, b64decode: string -> seq<byte>)
    requires c.cellType == "code" && c.executionCount == executionCount && CellOk(c)
    requires |outputs| == |c.outputs| && forall l :: 0 <= l < |outputs| ==> outputs[l].Value() == c.outputs[l]
    requires forall l, l' :: 0 <= l < l' < |outputs| ==> outputs[l] != outputs[l']
    requires cc.Valid()
    modifies outputs, cc
    ensures forall l :: 0 <= l < |outputs| ==> outputs[l].Value() == Step(c, c.outputs[l])
    ensures cc.Valid() && cc.initial == old(cc.initial)
    ensures cc.log == old(cc.log) + OutputUploads(c, c.outputs, b64decode)
  {
    var j := 0;
    while j < |outputs|
      invariant 0 <= j <= |outputs|
      invariant forall l :: 0 <= l < j ==> outputs[l].Value() == Step(c, c.outputs[l])
      invariant forall l :: j <= l < |outputs| ==> outputs[l].Value() == c.outputs[l]
      invariant cc.Valid() && cc.initial == old(cc.initial)
      invariant cc.log == old(cc.log) + OutputUploads(c, c.outputs[..j], b64decode)
    {
      assert OutputOk(c, c.outputs[j]);
      OutputUploadsSnoc(old(cc.log), c, c.outputs, j, b64decode);
      label Visit:
      VisitOutput(c, executionCount, outputs[j], cc, b64decode);
      forall l | 0 <= l < |outputs| && l != j
        ensures outputs[l].Value() == old@Visit(outputs[l].Value())
      {
        assert outputs[l] != outputs[j];
      }
      j := j + 1;
    }
    assert c.outputs[..j] == c.outputs;
  }

  /** Lines 19-31 for one cell: if it is a code cell, the loop over its
      outputs. */
  method ReplaceCellImages(cell: Cell, cc: ContainerClient, b64decode: string -> seq<byte>)
    requires forall l, l' :: 0 <= l < l' < |cell.outputs| ==> cell.outputs[l] != cell.outputs[l']
    requires CellOk(CellSnapshot(cell))
    requires cc.Valid()
    modifies cell.outputs, cc
    ensures CellSnapshot(cell) == RewriteCell(old(CellSnapshot(cell)))
    ensures cc.Valid() && cc.initial == old(cc.initial)
    ensures cc.log == old(cc.log) + CellUploads(old(CellSnapshot(cell)), b64decode)
  {
    ghost var c := CellSnapshot(cell);
    if cell.cellType == "code" {
      ReplaceOutputs(c, cell.outputs, cell.executionCount, cc, b64decode);
    }
    assert CellSnapshot(cell).outputs == RewriteCell(c).outputs;
  }

  /** `replace_images(nb, credentail)`: the loop over the cells. The
      container client of lines 11-16 is passed in as `cc`. */
  method ReplaceImages(cells: seq<Cell>, cc: ContainerClient, b64decode: string -> seq<byte>)
    requires Distinct(cells)
    requires Rewritable(Snapshot(cells))
    requires cc.Valid()
    modifies Objects(cells), cc
    ensures Snapshot(cells) == RewriteNotebook(old(Snapshot(cells)))
    ensures cc.Valid()
    ensures cc.log == old(cc.log) + Uploads(old(Snapshot(cells)), b64decode)
    ensures cc.blobs == ApplyUploads(old(cc.blobs), Uploads(old(Snapshot(cells)), b64decode))
  {
    ghost var nb := Snapshot(cells);
    ghost var log0 := cc.log;
    var i := 0;
    while i < |cells|
      invariant 0 <= i <= |cells|
      invariant forall k :: 0 <= k < i ==> CellSnapshot(cells[k]) == RewriteCell(nb[k])
      invariant forall k :: i <= k < |cells| ==> CellSnapshot(cells[k]) == nb[k]
      invariant cc.Valid() && cc.initial == old(cc.initial)
      invariant cc.log == log0 + Uploads(nb[..i], b64decode)
    {
      assert CellSnapshot(cells[i]) == nb[i];
      ghost var logBefore := cc.log;
      label Visit:
      ReplaceCellImages(cells[i], cc, b64decode);
      assert cc.log == logBefore + CellUploads(nb[i], b64decode);
      forall k | 0 <= k < |cells| && k != i
        ensures CellSnapshot(cells[k]) == old@Visit(CellSnapshot(cells[k]))
      {
        DisjointCells(cells, k, i);
      }
      UploadsSnoc(log0, nb, i, b64decode);
      i := i + 1;
    }
    assert nb[..i] == nb;
    ApplyUploadsConcat(cc.initial, log0, Uploads(nb, b64decode));
  }
}
