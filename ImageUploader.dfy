/** Validation of the user's own photo and extraction of its base64 payload
    from the data URL the browser reads it into. */
module ImageUploader {
  import opened Types
  import opened Strings
  import StyleUploader

  const MaxFileSizeMB: nat := 5
  const MaxFileSizeBytes: nat := MaxFileSizeMB * 1024 * 1024

  const NotAnImageMessage: string := "Please upload a valid image file (PNG, JPG, etc.)."

  function TooLargeMessage(): string
  {
    "Image is too large. Max size is " + NatToString(MaxFileSizeMB) + "MB."
  }

  /** The verdict on a chosen photo: an error to show, or go ahead to read it. */
  datatype FileCheck = Refused(message: string) | Proceed

  /** `processFile`'s guards: the size is checked before the type. */
  function CheckFile(f: FileInfo): FileCheck
  {
    if f.size > MaxFileSizeBytes then Refused(TooLargeMessage())
    else if !("image/" <= f.mimeType) then Refused(NotAnImageMessage)
    else Proceed
  }

  /** The error shown once the guards pass or fail: passing clears it. */
  function ErrorAfterCheck(f: FileCheck): Option<string>
  {
    match f
    case Refused(m) => Some(m)
    case Proceed => None
  }

  /** `dataUrl.split(',')[1]`, `None` standing for `undefined`. */
  function ExtractBase64(dataUrl: string): Option<string>
  {
    var parts := Split(dataUrl, ',');
    if |parts| > 1 then Some(parts[1]) else None
  }

  /** An oversized file is refused as too large whatever its type, and only
      a file within the limit can be refused for its type. */
  lemma SizeCheckedFirst(f: FileInfo)
    ensures f.size > MaxFileSizeBytes ==> CheckFile(f) == Refused(TooLargeMessage())
    ensures CheckFile(f) == Refused(NotAnImageMessage) <==>
      f.size <= MaxFileSizeBytes && !("image/" <= f.mimeType)
  {
    assert |TooLargeMessage()| == 36 && |NotAnImageMessage| == 50;
  }

  /** The photo guard accepts, and clears the error for, exactly the files
      the style uploader keeps. */
  lemma SameRuleAsStyleUploader(f: FileInfo)
    ensures CheckFile(f) == Proceed <==> StyleUploader.Accepted([f]) == [f]
    ensures ErrorAfterCheck(CheckFile(f)) == None <==> StyleUploader.Accepted([f]) == [f]
  {
  }

  /** Exactly five mebibytes is accepted, one byte more is too large. */
  lemma PhotoSizeBoundary(name: string)
    ensures CheckFile(FileInfo(name, "image/png", 5242880)) == Proceed
    ensures CheckFile(FileInfo(name, "image/png", 5242881)) == Refused(TooLargeMessage())
  {
    assert "image/" <= "image/png";
  }

  /** A data URL yields the text between its first and second comma, whatever
      follows; for a well-formed `data:<type>;base64,<payload>` that is the
      payload. */
  lemma ExtractPayload(header: string, payload: string, rest: string)
    requires ',' !in header && ',' !in payload
    ensures ExtractBase64(header + "," + payload) == Some(payload)
    ensures ExtractBase64(header + "," + payload + "," + rest) == Some(payload)
  {
    SplitWithoutSep(header, ',');
    SplitWithoutSep(payload, ',');
    SplitAround(header, payload, ',');
    var tail := payload + "," + rest;
    assert header + "," + payload + "," + rest == header + [','] + tail;
    SplitAround(header, tail, ',');
    SplitAround(payload, rest, ',');
  }

  /** Whatever the data URL, an extracted payload never holds a comma. */
  lemma PayloadHasNoComma(dataUrl: string)
    ensures ExtractBase64(dataUrl).Some? ==> ',' !in ExtractBase64(dataUrl).value
  {
    SplitPiecesAvoidSep(dataUrl, ',');
  }

  /** A string with no comma has no second piece: the payload is undefined. */
  lemma NoCommaNoPayload(dataUrl: string)
    requires ',' !in dataUrl
    ensures ExtractBase64(dataUrl) == None
  {
    SplitWithoutSep(dataUrl, ',');
  }
}
