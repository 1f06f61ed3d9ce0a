/** The checks both pages run on a selected file before accepting it. */
module Upload {
  import opened Wrappers
  import opened Media
  import Text

  /** The largest accepted file: 10 MiB. */
  const MaxUploadBytes: nat := 10 * 1024 * 1024

  const NotAnImageMessage := "Please upload an image file (JPG, PNG)"
  const TooLargeMessage := "Image too large. Max 10MB."

  /** The MIME type names an image. */
  predicate IsImageType(mimeType: string)
    ensures IsImageType(mimeType) <==> exists subtype :: mimeType == "image/" + subtype
  {
    Text.StartsWith(mimeType, "image/")
  }

  /** `None` when the file is accepted, otherwise the error message shown. The type
      is checked first, so a large non-image gets the type message; the size limit
      is inclusive. */
  function Validate(f: ImageFile): (r: Option<string>)
    ensures r.None? <==> IsImageType(f.mimeType) && f.Size() <= MaxUploadBytes
    ensures !IsImageType(f.mimeType) ==> r == Some(NotAnImageMessage)
    ensures IsImageType(f.mimeType) && f.Size() > MaxUploadBytes ==> r == Some(TooLargeMessage)
  {
    if !IsImageType(f.mimeType) then Some(NotAnImageMessage)
    else if f.Size() > MaxUploadBytes then Some(TooLargeMessage)
    else None
  }

  /** A file of exactly 10 MiB is accepted and one byte more is refused. */
  lemma LimitIsInclusive(f: ImageFile)
    requires IsImageType(f.mimeType)
    ensures f.Size() == 10485760 ==> Validate(f).None?
    ensures f.Size() == 10485761 ==> Validate(f) == Some(TooLargeMessage)
  {
  }
}
