/** The single-file page `src/removebg.tsx`: its own copy of the resize rule, the
    choice of removal model from the file name, and the page's state. */
module RemoveBg {
  import opened Wrappers
  import opened Media
  import Text
  import Upload
  import ImageUtils
  import EdgeSoftening
  import JsMath

  /** The bound this page's copy of `resizeImage` uses by default. */
  const MaxSize: nat := 2048

  const SelectFirstMessage := "Please select an image first."
  const FailureMessage := "❌ Failed to remove background. Try another image."

  const PortraitModel := "isnet"
  const DefaultModel := "isnet_fp16"

  /** The page's copy of the resize rule, updating `width` and `height` in place as it
      does; it computes the same size as the shared `ImageUtils.TargetDims`. */
  method ResizeDims(naturalWidth: nat, naturalHeight: nat, maxSize: nat) returns (width: nat, height: nat)
    ensures ImageUtils.Dims(width, height) == ImageUtils.TargetDims(ImageUtils.Dims(naturalWidth, naturalHeight), maxSize)
    ensures width <= maxSize && height <= maxSize
  {
    width, height := naturalWidth, naturalHeight;
    if width > height && width > maxSize {
      height := JsMath.RoundDiv(height * maxSize, width);
      width := maxSize;
    } else if height > maxSize {
      width := JsMath.RoundDiv(width * maxSize, height);
      height := maxSize;
    }
  }

  /** `/selfie|face|portrait/i.test(name)`. */
  predicate LooksLikePortrait(name: string)
    ensures LooksLikePortrait(name) <==>
      exists i: nat :: Text.OccursAt(Text.Fold(name), "selfie", i)
                    || Text.OccursAt(Text.Fold(name), "face", i)
                    || Text.OccursAt(Text.Fold(name), "portrait", i)
  {
    var folded := Text.Fold(name);
    Text.Contains(folded, "selfie") || Text.Contains(folded, "face") || Text.Contains(folded, "portrait")
  }

  /** The model variant asked of the removal library: the portrait model exactly when
      one of the three words occurs in the name in any letter case. */
  function ChooseModel(name: string): (m: string)
    ensures m == PortraitModel || m == DefaultModel
    ensures m == PortraitModel <==>
      exists i: nat :: Text.OccursAt(Text.Fold(name), "selfie", i)
                    || Text.OccursAt(Text.Fold(name), "face", i)
                    || Text.OccursAt(Text.Fold(name), "portrait", i)
  {
    if LooksLikePortrait(name) then PortraitModel else DefaultModel
  }

  /** Letter case does not matter to the choice. */
  lemma ChooseModelIgnoresCase(name: string)
    ensures ChooseModel(name) == ChooseModel(Text.Fold(name))
  {
    Text.FoldIdempotent(name);
  }

  /** Two names, one of each kind. */
  lemma ChooseModelExamples()
    ensures ChooseModel("My_SELFIE.jpg") == PortraitModel
    ensures ChooseModel("cat.png") == DefaultModel
  {
    var folded := Text.Fold("My_SELFIE.jpg");
    assert folded == "my_selfie.jpg";
    assert Text.OccursAt(folded, "selfie", 3);
    var plain := Text.Fold("cat.png");
    assert plain == "cat.png";
    Text.MissingFirstLetter(plain, "selfie");
    Text.MissingFirstLetter(plain, "face");
  }

  /** The state of the page that the handlers update: `useState` fields. */
  class PageState {
    var file: Option<ImageFile>
    var preview: Option<string>
    var resultUrl: Option<string>
    var loading: bool
    var error: Option<string>

    constructor ()
      ensures file == None && preview == None && resultUrl == None
      ensures !loading && error == None
    {
      file, preview, resultUrl := None, None, None;
      loading, error := false, None;
    }

    /** `handleFile`: a rejected file only sets the error; an accepted one becomes the
        current file and clears the error and the previous result. The preview is set
        later, when the file has been read. */
    method HandleFile(selected: ImageFile)
      modifies this
      ensures Upload.Validate(selected).Some? ==>
        error == Upload.Validate(selected) && file == old(file) && resultUrl == old(resultUrl)
      ensures Upload.Validate(selected).None? ==>
        error == None && file == Some(selected) && resultUrl == None
      ensures preview == old(preview) && loading == old(loading)
    {
      if !Upload.IsImageType(selected.mimeType) {
        error := Some(Upload.NotAnImageMessage);
        return;
      }
      if selected.Size() > Upload.MaxUploadBytes {
        error := Some(Upload.TooLargeMessage);
        return;
      }
      error := None;
      file := Some(selected);
      resultUrl := None;
    }

    /** The `FileReader` callback that stores the data URL of the selected file. */
    method PreviewRead(dataUrl: string)
      modifies this
      ensures preview == Some(dataUrl)
      ensures file == old(file) && resultUrl == old(resultUrl)
      ensures loading == old(loading) && error == old(error)
    {
      preview := Some(dataUrl);
    }

    /** `removeFile`: every field shown about the file goes back to null. */
    method RemoveFile()
      modifies this
      ensures file == None && preview == None && resultUrl == None && error == None
      ensures loading == old(loading)
    {
      file := None;
      preview := None;
      resultUrl := None;
      error := None;
    }

    /** The synchronous start of `handleRemoveBackground`. Without a file it only sets
        the error; otherwise it clears the error, sets `loading` and returns the file
        the run works on (the one current when the run started). */
    method BeginRemoval() returns (run: Option<ImageFile>)
      modifies this
      ensures run == old(file)
      ensures old(file).None? ==> error == Some(SelectFirstMessage) && loading == old(loading)
      ensures old(file).Some? ==> error == None && loading
      ensures file == old(file) && preview == old(preview) && resultUrl == old(resultUrl)
    {
      if file == None {
        error := Some(SelectFirstMessage);
        return None;
      }
      error := None;
      loading := true;
      run := file;
    }

    /** The rest of the run on `run`, once the image has decoded to size `natural`
        (an image that never decodes never resolves `resizeImage`, and the run never
        completes). The browser and library steps are parameters:
        - `encode`: drawing on a canvas of a size and `toBlob` in a type;
        - `removal`: `removeBackground` with a model, then decoding the blob and
          reading its RGBA pixels; `None` when any of these throws;
        - `toPng`: `toBlob` of the pixels as "image/png" and its object URL.
        Success stores the URL when there is a blob; failure sets the error; both
        clear `loading`. */
    method CompleteRemoval(run: ImageFile, natural: ImageUtils.Dims,
                           encode: (ImageUtils.Dims, string) -> Option<seq<Byte>>,
                           removal: (ImageFile, string) -> Option<seq<Byte>>,
                           toPng: seq<Byte> -> Option<string>)
      modifies this
      ensures !loading
      ensures var cutout := removal(ImageUtils.ResizeImage(run, natural, MaxSize, encode), ChooseModel(run.name));
              cutout.None? ==> error == Some(FailureMessage) && resultUrl == old(resultUrl)
      ensures var cutout := removal(ImageUtils.ResizeImage(run, natural, MaxSize, encode), ChooseModel(run.name));
              cutout.Some? ==>
                var url := toPng(EdgeSoftening.Attenuated(cutout.value));
                error == old(error) && resultUrl == (if url.Some? then url else old(resultUrl))
      ensures file == old(file) && preview == old(preview)
    {
      var width, height := ResizeDims(natural.width, natural.height, MaxSize);
      var blob := encode(ImageUtils.Dims(width, height), run.mimeType);
      var resized := if blob.Some? then ImageFile(run.name, run.mimeType, blob.value) else run;
      var cutout := removal(resized, ChooseModel(run.name));
      if cutout.None? {
        error := Some(FailureMessage);
      } else {
        var pixels := cutout.value;
        var data := new Byte[|pixels|](i requires 0 <= i < |pixels| => pixels[i]);
        assert data[..] == pixels;
        EdgeSoftening.SoftenEdges(data);
        var processed := toPng(data[..]);
        if processed.Some? {
          resultUrl := processed;
        }
      }
      loading := false;
    }
  }
}
