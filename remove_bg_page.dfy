/** The page `src/pages/RemoveBgPage.tsx`: the same validation and alpha pass as the
    single-file page, a fixed removal model, and a simulated progress counter. */
module RemoveBgPage {
  import opened Wrappers
  import opened Media
  import Upload
  import ImageUtils
  import EdgeSoftening

  const FailureMessage := "Failed to remove background."

  /** The model variant this page always asks for. */
  const Model := "isnet_fp16"

  /** The simulated progress stops here until the run ends. */
  const ProgressCap := 95
  /** Progress shown when a run has succeeded. */
  const ProgressDone := 100
  const ProgressStep := 5

  /** One firing of the interval: `Math.min(prev + 5, 95)`. */
  function Tick(prev: int): (r: int)
    ensures r <= prev + ProgressStep && r <= ProgressCap
    ensures r == prev + ProgressStep || r == ProgressCap
  {
    if prev + ProgressStep < ProgressCap then prev + ProgressStep else ProgressCap
  }

  /** A tick from a value in 0..95 stays in 0..95 and does not go down. */
  lemma TickWithinCap(prev: int)
    requires 0 <= prev <= ProgressCap
    ensures prev <= Tick(prev) <= ProgressCap
    ensures Tick(prev) == prev <==> prev == ProgressCap
  {
  }

  /** The progress after `n` firings of the interval from the initial 0. */
  function ProgressAfter(n: nat): (r: int) {
    if n == 0 then 0 else Tick(ProgressAfter(n - 1))
  }

  /** After `n` ticks the progress is `5n`, capped at 95. */
  lemma {:induction false} ProgressAfterClosedForm(n: nat)
    ensures ProgressAfter(n) == if ProgressStep * n < ProgressCap then ProgressStep * n else ProgressCap
  {
    if n > 0 {
      ProgressAfterClosedForm(n - 1);
    }
  }

  /** The progress never goes down and never passes 95; it first reaches 95 at the
      nineteenth tick and stays there. */
  lemma ProgressMonotoneAndCapped(m: nat, n: nat)
    requires m <= n
    ensures 0 <= ProgressAfter(m) <= ProgressAfter(n) <= ProgressCap
    ensures ProgressAfter(n) == ProgressCap <==> n >= 19
  {
    ProgressAfterClosedForm(m);
    ProgressAfterClosedForm(n);
  }

  /** The page's state: `useState` fields. `progress` takes the values 0..95 while
      a run is simulated and 100 once one has succeeded. */
  class PageState {
    var file: Option<ImageFile>
    var preview: Option<string>
    var resultUrl: Option<string>
    var loading: bool
    var progress: int
    var error: Option<string>

    predicate Valid()
      reads this
    {
      0 <= progress <= ProgressCap || progress == ProgressDone
    }

    constructor ()
      ensures Valid()
      ensures file == None && preview == None && resultUrl == None
      ensures !loading && progress == 0 && error == None
    {
      file, preview, resultUrl := None, None, None;
      loading, progress, error := false, 0, None;
    }

    /** `handleFileSelect`: the same checks in the same order as the other page; a
        rejected file only sets the error, an accepted one becomes the current file
        and clears the error and the previous result. */
    method HandleFileSelect(selected: ImageFile)
      requires Valid()
      modifies this
      ensures Valid()
      ensures Upload.Validate(selected).Some? ==>
        error == Upload.Validate(selected) && file == old(file) && resultUrl == old(resultUrl)
      ensures Upload.Validate(selected).None? ==>
        error == None && file == Some(selected) && resultUrl == None
      ensures preview == old(preview) && loading == old(loading) && progress == old(progress)
    {
      if !Upload.IsImageType(selected.mimeType) {
        error := Some(Upload.NotAnImageMessage);
        return;
      }
      if selected.Size() > Upload.MaxUploadBytes {
        error := Some(Upload.TooLargeMessage);
        return;
      }
      error := None;
      file := Some(selected);
      resultUrl := None;
    }

    /** The `FileReader` callback that stores the data URL of the selected file. */
    method PreviewRead(dataUrl: string)
      requires Valid()
      modifies this
      ensures Valid()
      ensures preview == Some(dataUrl)
      ensures file == old(file) && resultUrl == old(resultUrl) && error == old(error)
      ensures loading == old(loading) && progress == old(progress)
    {
      preview := Some(dataUrl);
    }

    /** `removeFile`: the four file fields go back to null; the run state stays. */
    method RemoveFile()
      requires Valid()
      modifies this
      ensures Valid()
      ensures file == None && preview == None && resultUrl == None && error == None
      ensures loading == old(loading) && progress == old(progress)
    {
      file := None;
      preview := None;
      resultUrl := None;
      error := None;
    }

    /** The synchronous start of `handleRemoveBackground`. Without a file nothing
        changes at all; otherwise `loading` is set and progress restarts at 0, and the
        file the run works on is returned. The error of an earlier run is not cleared. */
    method BeginRemoval() returns (run: Option<ImageFile>)
      requires Valid()
      modifies this
      ensures Valid()
      ensures run == old(file)
      ensures old(file).None? ==> loading == old(loading) && progress == old(progress)
      ensures old(file).Some? ==> loading && progress == 0
      ensures file == old(file) && preview == old(preview)
      ensures resultUrl == old(resultUrl) && error == old(error)
    {
      if file == None {
        return None;
      }
      loading := true;
      progress := 0;
      run := file;
    }

    /** One firing of the interval set up by `BeginRemoval`; it fires only while the
        run is in flight, and only the progress changes. */
    method ProgressTick()
      requires Valid() && loading
      modifies this
      ensures Valid()
      ensures progress == Tick(old(progress))
      ensures file == old(file) && preview == old(preview) && resultUrl == old(resultUrl)
      ensures loading && error == old(error)
    {
      progress := Tick(progress);
    }

    /** The rest of the run on `run` once the image has decoded to size `natural`,
        with the browser and library steps as parameters, as on the other page
        (`removal` is always asked for `Model`; `toPng` is `toBlob` in its default
        type, PNG). Success stores the URL when there is a blob and sets progress to
        100; failure sets the error and progress 0; both clear `loading`. */
    method CompleteRemoval(run: ImageFile, natural: ImageUtils.Dims,
                           encode: (ImageUtils.Dims, string) -> Option<seq<Byte>>,
                           removal: (ImageFile, string) -> Option<seq<Byte>>,
                           toPng: seq<Byte> -> Option<string>)
      requires Valid()
      modifies this
      ensures Valid() && !loading
      ensures var cutout := removal(ImageUtils.ResizeImage(run, natural, ImageUtils.DefaultMaxSize, encode), Model);
              cutout.None? ==> error == Some(FailureMessage) && progress == 0 && resultUrl == old(resultUrl)
      ensures var cutout := removal(ImageUtils.ResizeImage(run, natural, ImageUtils.DefaultMaxSize, encode), Model);
              cutout.Some? ==>
                var url := toPng(EdgeSoftening.Attenuated(cutout.value));
                error == old(error) && progress == ProgressDone
                && resultUrl == (if url.Some? then url else old(resultUrl))
      ensures file == old(file) && preview == old(preview)
    {
      var resized := ImageUtils.ResizeImage(run, natural, ImageUtils.DefaultMaxSize, encode);
      var cutout := removal(resized, Model);
      if cutout.None? {
        error := Some(FailureMessage);
        progress := 0;
      } else {
        var pixels := cutout.value;
        var data := new Byte[|pixels|](i requires 0 <= i < |pixels| => pixels[i]);
        assert data[..] == pixels;
        EdgeSoftening.SoftenEdges(data);
        var processed := toPng(data[..]);
        if processed.Some? {
          resultUrl := processed;
        }
        progress := ProgressDone;
      }
      loading := false;
    }
  }
}
