/** Validation of a batch of garment files dropped on the style uploader:
    non-images are discarded, oversized images are counted and reported, and
    the rest go on to classification. */
module StyleUploader {
  import opened Types
  import opened Strings

  const MaxFileSizeMB: nat := 5
  const MaxFileSizeBytes: nat := MaxFileSizeMB * 1024 * 1024

  const NoImagesMessage: string := "No valid image files found in the selection."

  /** `file.type.startsWith('image/')`. */
  predicate IsImage(f: FileInfo)
  {
    "image/" <= f.mimeType
  }

  predicate WithinLimit(f: FileInfo)
  {
    f.size <= MaxFileSizeBytes
  }

  /** `files.filter(file => file.type.startsWith('image/'))`. */
  function ImageFiles(files: seq<FileInfo>): (r: seq<FileInfo>)
    ensures |r| <= |files|
    ensures forall f :: f in r <==> f in files && IsImage(f)
    decreases |files|
  {
    if files == [] then []
    else (if IsImage(files[0]) then [files[0]] else []) + ImageFiles(files[1..])
  }

  /** `files.filter(file => file.size <= MAX_FILE_SIZE_BYTES)`. */
  function SizedFiles(files: seq<FileInfo>): (r: seq<FileInfo>)
    ensures |r| <= |files|
    ensures forall f :: f in r <==> f in files && WithinLimit(f)
    decreases |files|
  {
    if files == [] then []
    else (if WithinLimit(files[0]) then [files[0]] else []) + SizedFiles(files[1..])
  }

  /** Reference definition: the files that are images within the size limit,
      in one pass and in their original order. */
  function Accepted(files: seq<FileInfo>): seq<FileInfo>
    decreases |files|
  {
    if files == [] then []
    else (if IsImage(files[0]) && WithinLimit(files[0]) then [files[0]] else []) + Accepted(files[1..])
  }

  /** Reference definition: how many images exceed the size limit. */
  function CountOversized(files: seq<FileInfo>): nat
    decreases |files|
  {
    if files == [] then 0
    else (if IsImage(files[0]) && !WithinLimit(files[0]) then 1 else 0) + CountOversized(files[1..])
  }

  /** The message reporting `count` oversized images. */
  function OversizedMessage(count: nat): string
  {
    NatToString(count) + " image(s) exceeded the " + NatToString(MaxFileSizeMB) + "MB size limit and were not added."
  }

  /** What processing a batch leaves behind: the error shown under the
      uploader (`None` clears it) and the files passed on, if any. */
  datatype BatchResult = BatchResult(error: Option<string>, upload: Option<seq<FileInfo>>)

  /** `processFiles`. */
  function ProcessFiles(files: seq<FileInfo>): BatchResult
  {
    var imageFiles := ImageFiles(files);
    if |imageFiles| == 0 && |files| > 0 then BatchResult(Some(NoImagesMessage), None)
    else
      var validSizeFiles := SizedFiles(imageFiles);
      var oversizedFilesCount := |imageFiles| - |validSizeFiles|;
      BatchResult(
        if oversizedFilesCount > 0 then Some(OversizedMessage(oversizedFilesCount)) else None,
        if |validSizeFiles| > 0 then Some(validSizeFiles) else None)
  }

  /** The two filters in sequence keep exactly the single-pass accepted
      files, and drop exactly the oversized images. */
  lemma {:induction false} FiltersAreAccepted(files: seq<FileInfo>)
    ensures SizedFiles(ImageFiles(files)) == Accepted(files)
    ensures |ImageFiles(files)| == |Accepted(files)| + CountOversized(files)
    decreases |files|
  {
    if files != [] {
      var f := files[0];
      var rest := files[1..];
      FiltersAreAccepted(rest);
      SizedAppend(if IsImage(f) then [f] else [], ImageFiles(rest));
      if IsImage(f) {
        assert SizedFiles([f]) == (if WithinLimit(f) then [f] else []) + SizedFiles([]);
      } else {
        assert ImageFiles(files) == ImageFiles(rest);
      }
    }
  }

  /** The type filter distributes over concatenation, so the kept files stay
      in their original order. */
  lemma {:induction false} ImageAppend(a: seq<FileInfo>, b: seq<FileInfo>)
    ensures ImageFiles(a + b) == ImageFiles(a) + ImageFiles(b)
    decreases |a|
  {
    if a == [] {
      assert a + b == b;
    } else {
      assert (a + b)[0] == a[0] && (a + b)[1..] == a[1..] + b;
      ImageAppend(a[1..], b);
    }
  }

  /** The size filter distributes over concatenation, so the kept files stay
      in their original order. */
  lemma {:induction false} SizedAppend(a: seq<FileInfo>, b: seq<FileInfo>)
    ensures SizedFiles(a + b) == SizedFiles(a) + SizedFiles(b)
    decreases |a|
  {
    if a == [] {
      assert a + b == b;
    } else {
      assert (a + b)[0] == a[0] && (a + b)[1..] == a[1..] + b;
      SizedAppend(a[1..], b);
    }
  }

  /** A file is passed on iff it is an image within the size limit. */
  lemma AcceptedMembers(files: seq<FileInfo>, f: FileInfo)
    ensures f in Accepted(files) <==> f in files && IsImage(f) && WithinLimit(f)
  {
    FiltersAreAccepted(files);
  }

  /** An empty batch changes nothing: no error and no upload. */
  lemma EmptyBatch()
    ensures ProcessFiles([]) == BatchResult(None, None)
  {
  }

  /** A non-empty batch without a single image is reported and nothing is passed on. */
  lemma NoImageInBatch(files: seq<FileInfo>)
    requires files != [] && forall i :: 0 <= i < |files| ==> !IsImage(files[i])
    ensures ProcessFiles(files) == BatchResult(Some(NoImagesMessage), None)
  {
    if ImageFiles(files) != [] {
      assert ImageFiles(files)[0] in files;
    }
  }

  /** With at least one image in the batch, processing reports the oversized
      count, if any, and passes on the accepted files, if any. */
  lemma WithImages(files: seq<FileInfo>)
    requires ImageFiles(files) != []
    ensures ProcessFiles(files) == BatchResult(
      if CountOversized(files) > 0 then Some(OversizedMessage(CountOversized(files))) else None,
      if Accepted(files) != [] then Some(Accepted(files)) else None)
  {
    FiltersAreAccepted(files);
  }

  /** Once the batch holds an image: oversized images are reported by count
      iff there are any, and the accepted files are passed on, in order, iff
      there are any; both can happen for one batch. */
  lemma BatchOutcome(files: seq<FileInfo>)
    requires exists i :: 0 <= i < |files| && IsImage(files[i])
    ensures var r := ProcessFiles(files);
      && (r.error.Some? <==> CountOversized(files) > 0)
      && (r.error.Some? ==> r.error.value == OversizedMessage(CountOversized(files)))
      && (r.upload.Some? <==> Accepted(files) != [])
      && (r.upload.Some? ==> r.upload.value == Accepted(files))
  {
    var i :| 0 <= i < |files| && IsImage(files[i]);
    assert files[i] in ImageFiles(files);
    WithImages(files);
  }

  /** A file of exactly five mebibytes is still accepted; one byte more is not. */
  lemma SizeLimitBoundary(name: string, mime: string)
    requires "image/" <= mime
    ensures Accepted([FileInfo(name, mime, 5242880)]) == [FileInfo(name, mime, 5242880)]
    ensures Accepted([FileInfo(name, mime, 5242881)]) == []
  {
  }

  /** The oversized message renders the count in decimal in front. */
  lemma OversizedMessageLeadsWithCount(count: nat)
    ensures OversizedMessage(count)[..|NatToString(count)|] == NatToString(count)
    ensures DecimalValue(OversizedMessage(count)[..|NatToString(count)|]) == count
  {
    DecimalRoundTrip(count);
  }
}
