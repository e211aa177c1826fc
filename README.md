# replace_images: moving notebook images into blob storage

`scripts/slim.py` makes a Jupyter notebook smaller. `replace_images` walks the
notebook's cells. For each code cell, it looks at every output whose
`output_type` is `display_data` and whose first mime type is `image/png`.
For each such output it:

- pops the base64 PNG out of `data`;
- drops `metadata["needs_background"]`;
- uploads the decoded PNG to the `assets` container of the
  `ai4edatasetspublicassets` storage account;
- puts an HTML `<img>` tag pointing at the uploaded blob under `text/html`.

The blob's name is
`notebook-output/customizable-rtc-sentine1.ipynb/<execution_count>.png`, and
the upload passes `overwrite=True`.

The model has two layers:

- **Notebook as values.** `Slim.RewriteOutput`, `Slim.RewriteNotebook` and
  `Slim.Uploads` say what the rewrite produces and which uploads it issues, in
  order.
- **The procedure itself, in place.** Outputs are `Notebook.Output` objects
  whose fields the methods update. The container is a
  `BlobStore.ContainerClient` object whose `blobs` map each upload overwrites.
  `Slim.ReplaceImages` is proved to leave exactly the rewritten notebook behind
  and to issue exactly those uploads.

The lemmas in `SlimProperties` give the values their meaning:

- what a rewritten output holds;
- that only the selected outputs change;
- that every rewritten output gets exactly one upload, in cell-then-output
  order, named as its `<img>` tag says;
- that images sharing an execution count share a blob, and the last one wins;
- that running the script again changes nothing and uploads nothing.

Modules:

- `OrderedMap`: the insertion-ordered `dict`, as an association list.
- `Decimal`: `str()` of an `int`.
- `Json`: output values.
- `BlobStore`: the container.
- `Notebook`: cells and outputs, as values and as objects.
- `Slim`: the rewrite.
- `SlimProperties`: the lemmas about it.

## Model

| member | source | states |
|---|---|---|
| OrderedMap.Keys | scripts/slim.py:22 | `list(d)` has one key per entry, the i-th key being the i-th entry's key |
| OrderedMap.Get | scripts/slim.py:24 | a lookup finds a value exactly when the key is among the dictionary's keys |
| OrderedMap.GetEntry | scripts/slim.py:24 | in a dictionary, looking up the key of any entry gives that entry's value |
| OrderedMap.RemoveKeys | scripts/slim.py:24 | `pop` never introduces a key |
| OrderedMap.RemoveUnique | scripts/slim.py:24 | after `pop(k)` the data is still a dictionary and `k` is gone |
| OrderedMap.GetRemove | scripts/slim.py:24 | after `pop(k)`, `k` finds nothing and every other key finds its old value |
| OrderedMap.RemoveAt | scripts/slim.py:24 | `pop(k)` deletes exactly the entry for `k` and keeps the other entries in their order |
| OrderedMap.GetPut | scripts/slim.py:31 | after `d[k] = v`, `k` finds `v` and every other key its old value |
| OrderedMap.PutKeys | scripts/slim.py:31 | `d[k] = v` keeps an existing key in place and appends a new one at the end |
| OrderedMap.PutUnique | scripts/slim.py:31 | `d[k] = v` keeps the data a dictionary |
| Decimal.DigitChar | scripts/slim.py:29 | the digit character for d < 10 is a digit that reads back as d |
| Decimal.NatToString | scripts/slim.py:29 | the decimal text of a natural number is non-empty, all digits, and has no leading zero |
| Decimal.ParseNatToString | scripts/slim.py:29 | reading back the decimal text of n gives n |
| Decimal.IntToString | scripts/slim.py:29 | `str(n)`: a minus sign exactly for negative n, then digits with no leading zero that read back as the absolute value |
| BlobStore.LastUploadWins | scripts/slim.py:30 | with `overwrite=True`, a blob holds the payload of the last upload under its name |
| BlobStore.UntouchedBlobKept | scripts/slim.py:30 | a blob no upload names keeps its old contents, or stays absent |
| BlobStore.ApplyUploadsConcat | scripts/slim.py:30 | issuing two batches of uploads one after the other equals issuing their concatenation |
| BlobStore.ContainerClient.constructor | scripts/slim.py:11-15 | a new client sees the container's current contents and has issued no upload |
| BlobStore.ContainerClient.UploadBlob | scripts/slim.py:30 | the blob `name` is created or replaced by `payload`, and nothing else in the container changes |
| Slim.CountToString | scripts/slim.py:29 | the f-string text of `execution_count` is non-empty and starts with `N` exactly when the count is `None` |
| Slim.BlobName | scripts/slim.py:29 | the blob name starts with the fixed notebook prefix and ends with `.png` |
| SlimProperties.CountPartOfBlobName | scripts/slim.py:29 | the text between the prefix and `.png` is exactly the f-string text of the cell's execution count |
| Slim.ImgTag | scripts/slim.py:31 | the `src` of the generated `<img>` tag is exactly `url + "/" + name` |
| Slim.PngPayload | scripts/slim.py:22-24 | the string popped is the one held by the first entry of `data`, the `image/png` entry that line 22 tested |
| Slim.ReplaceImage | scripts/slim.py:23-31 | the output becomes `RewriteOutput` of what it was, and exactly one upload is issued, of the decoded PNG under the cell's blob name |
| Slim.VisitOutput | scripts/slim.py:22-31 | an output passing the line-22 test is rewritten with one upload; any other output is left alone and uploads nothing |
| Slim.ReplaceOutputs | scripts/slim.py:20-31 | every output of a code cell becomes its rewrite, in place and in order, and the cell's uploads are issued in output order |
| Slim.ReplaceCellImages | scripts/slim.py:19-31 | a code cell's outputs become their rewrite, in order, with the cell's uploads issued in output order; other cells are untouched |
| Slim.ReplaceImages | scripts/slim.py:10-31 | the notebook becomes `RewriteNotebook` of what it was; the container is the old contents with `Uploads` applied in order |
| SlimProperties.RewriteOutputSpec | scripts/slim.py:24-31 | a rewritten output stays display_data and loses image/png; its other mime types keep their order, with text/html last unless it was already present; only `needs_background` leaves the metadata |
| SlimProperties.RewriteOutputGet | scripts/slim.py:24-31 | in a rewritten output, image/png is absent, text/html is the `<img>` tag for the cell's blob, and every other mime type keeps its value |
| SlimProperties.StepChangesExactlySelected | scripts/slim.py:22 | an output changes exactly when it is display_data with image/png as its first mime type, in a code cell |
| SlimProperties.BlobNameInjective | scripts/slim.py:29 | two cells' images go to the same blob exactly when the cells have the same execution count |
| SlimProperties.RewrittenTagNamesBlob | scripts/slim.py:28-31 | the `<img>` tag left in a rewritten output points at the container URL followed by the cell's blob name |
| SlimProperties.NonCodeCellUnchanged | scripts/slim.py:19 | a cell that is not a code cell is left exactly as it was |
| SlimProperties.ShapePreserved | scripts/slim.py:18-31 | same cells in the same order, with the same types and counts and the same number of outputs in order; unselected outputs and non-code cells are unchanged |
| SlimProperties.StepSettles | scripts/slim.py:22-31 | a rewritten output is no longer selected and can be traversed again without raising |
| SlimProperties.RewriteSettles | scripts/slim.py:18-31 | the rewritten notebook can be rewritten again without raising, and none of its outputs is selected |
| SlimProperties.NoSelectedNoUploads | scripts/slim.py:18-30 | a notebook with no selected output causes no uploads |
| SlimProperties.NoSelectedUnchanged | scripts/slim.py:18-22 | a notebook with no selected output is left as it is |
| SlimProperties.SecondRunChangesNothing | scripts/slim.py:18-31 | a second run on the result leaves it unchanged and uploads nothing |
| SlimProperties.CellVisits | scripts/slim.py:21-22 | each position it lists is a selected output of the cell |
| SlimProperties.Visits | scripts/slim.py:18-22 | each position it lists is a selected output of the notebook |
| SlimProperties.CellVisitsComplete | scripts/slim.py:21-22 | every selected output of a cell is listed |
| SlimProperties.VisitsComplete | scripts/slim.py:18-22 | every selected output of the notebook is listed |
| SlimProperties.CellVisitsOrdered | scripts/slim.py:21 | a cell's selected outputs are listed in output order |
| SlimProperties.VisitsOrdered | scripts/slim.py:18-21 | selected outputs are listed cell by cell, then output by output, so each appears once |
| SlimProperties.OutputUploadsFollowVisits | scripts/slim.py:21-30 | within a cell, the t-th upload belongs to the t-th selected output |
| SlimProperties.UploadsFollowVisits | scripts/slim.py:18-30 | exactly one upload per selected output, and the t-th upload belongs to the t-th selected output in cell-then-output order |
| SlimProperties.UploadName | scripts/slim.py:29-30 | the t-th upload goes to the blob named after the execution count of the t-th selected output's cell |
| SlimProperties.UploadMatchesTag | scripts/slim.py:22-31 | the t-th upload carries the decoded PNG of the t-th selected output, and that output's `<img>` tag names the same blob |
| SlimProperties.UploadNamesCollide | scripts/slim.py:29-30 | two uploads share a blob exactly when their cells share an execution count, so two images of one cell collide |
| SlimProperties.StoredImage | scripts/slim.py:29-30 | after the run, a count's blob holds the image of the last selected output whose cell has that count |
| SlimProperties.OtherBlobsKept | scripts/slim.py:30 | a blob whose name no selected output's cell produces keeps its old contents |

## Left out

- Building the client (lines 11-15) is left out. So are the account URL, the
  container name and the credential. `ContainerClient` stands for an
  already-connected client, and its constructor takes only the container's
  current contents.
- The credential on line 14 is the module-level global `credential`. It is
  not the misspelt parameter `credentail`, which is never used. This is not
  modelled.
- The `ContentSettings` object of line 16 is left out. It is built with the
  misspelt keyword `conent_type`, so the intended `image/png` content type is
  never set. Content settings have no counterpart in the container model.
- The `print` of line 23 is left out: it is console output only.
- `base64.b64decode(s.encode())` is the function parameter `b64decode`.
  Rejecting malformed base64 (`binascii.Error`) is not modelled.
- The network is left out: `upload_blob` always succeeds. A failed upload
  halfway through the traversal is not modelled.
- The script's `__main__` block (lines 34-39) is left out: `sys.argv`,
  `os.environ`, and `nbformat.read` / `nbformat.write` are file and
  environment I/O.
- Two inputs on which the source raises are preconditions (`Slim.Rewritable`)
  rather than modelled error paths:
  - an empty `data` bundle on a display_data output of a code cell
    (`list(...)[0]` raises `IndexError`);
  - a non-string `image/png` value (`.encode()` raises `AttributeError`).

  The partially rewritten notebook such an exception would leave behind is not
  modelled.
- Missing keys (a cell without `cell_type` or `outputs`, an output without
  `metadata`) are not modelled. Notebook format 4 always has these keys, and
  an output without `data` is modelled with an empty bundle.
- `Notebook.Distinct` assumes that no output dictionary is shared between two
  places in the notebook, as holds for a notebook parsed from JSON.
- JSON values are integers, strings, booleans, null, arrays and objects.
  Floating-point numbers are left out: they never affect the rewrite.
- Output and cell keys other than those the rewrite reads or writes are left
  out, since they are never touched. That means `output_type`, `data` and
  `metadata` for outputs, and `cell_type`, `execution_count` and `outputs` for
  cells.
- SlimProperties.RewriteOutputSpec: the meaning lemmas take as their
  precondition that every `data` bundle is a dictionary with no repeated mime
  type (`UniqueKeys`, `SlimProperties.Dictionaries`). This always holds for a
  Python `dict`. The traversal methods do not need it.
