/** The decision the `/upload` endpoint takes: three checks in a fixed
    order, each answering 400 with its own message, then save, classify
    and answer with the result. The request, `secure_filename` and the
    inference a saved file leads to are parameters. */
module Upload {
  import opened Outcomes
  import opened Text
  import opened Paths
  import opened Validators
  import opened Predict
  import opened Routing

  /** Directory uploads are saved in, relative to the working directory. */
  const UploadFolder := "uploads"

  const NoFileProvided := "No file provided"
  const NoFileSelected := "No file selected"
  const InvalidFileType := "Invalid file type. Please upload JPG, PNG, or WebP."

  /** The multipart request as the endpoint sees it: the filename of the
      part named `file`, or `None` when there is no such part. */
  datatype Request = Request(file: Option<string>)

  /** The response: a 400 with an error message, a 200 with the result
      payload (`success` is true), or the 500 the framework answers with
      when classification raises. */
  datatype Response =
    | BadRequest(error: string)
    | Uploaded(imageUrl: string, prediction: Prediction)
    | ServerError(failure: Failure)

  /** HTTP status of a response. */
  function Status(r: Response): (code: int)
  {
    match r
    case BadRequest(_) => 400
    case Uploaded(_, _) => 200
    case ServerError(_) => 500
  }

  /** The response together with the path handed to `file.save`, if any. */
  datatype Handled = Handled(response: Response, saved: Option<string>)

  /** The filename passes all three checks. */
  predicate Acceptable(req: Request)
  {
    req.file.Some? && req.file.value != "" && AllowedFile(req.file.value)
  }

  /** `upload_file`. `secure` is `secure_filename`; `forwardFor` gives what
      preprocessing and the forward pass do with the file at a path; `h` is
      the dummy classifier's random draw. */
  function UploadFile(req: Request, secure: string -> string, config: Config,
                      forwardFor: string -> Result<seq<real>, Failure>, h: DummyHundredths): (out: Handled)
    ensures out.response.BadRequest? <==> !Acceptable(req)
    ensures out.saved.Some? <==> Acceptable(req)
    ensures Acceptable(req) ==> out.saved == Some(Join(UploadFolder, secure(req.file.value)))
    ensures out.response.Uploaded? ==>
      && out.response.imageUrl == "/uploads/" + secure(req.file.value)
      && Ok(out.response.prediction) == ClassifyImage(config, forwardFor(out.saved.value), h)
    ensures out.response.ServerError? ==>
      Err(out.response.failure) == ClassifyImage(config, forwardFor(out.saved.value), h)
  {
    match req.file
    case None => Handled(BadRequest(NoFileProvided), None)
    case Some(name) =>
      if name == "" then Handled(BadRequest(NoFileSelected), None)
      else if AllowedFile(name) then
        var filename := secure(name);
        var filepath := Join(UploadFolder, filename);
        match ClassifyImage(config, forwardFor(filepath), h)
        case Ok(p) => Handled(Uploaded("/uploads/" + filename, p), Some(filepath))
        case Err(e) => Handled(ServerError(e), Some(filepath))
      else Handled(BadRequest(InvalidFileType), None)
  }

  /** The checks run in a fixed order and each rejection names the first
      check that failed: a missing part before anything else, then an
      empty filename, then the extension. */
  lemma RejectionOrder(req: Request, secure: string -> string, config: Config,
                       forwardFor: string -> Result<seq<real>, Failure>, h: DummyHundredths)
    ensures var r := UploadFile(req, secure, config, forwardFor, h).response;
      && (req.file.None? ==> r == BadRequest(NoFileProvided))
      && (req.file == Some("") ==> r == BadRequest(NoFileSelected))
      && (req.file.Some? && req.file.value != "" && !AllowedFile(req.file.value) ==>
            r == BadRequest(InvalidFileType))
      && (Status(r) == 400 <==> r.BadRequest?)
  {
  }

  /** A name whose last extension is not an allowed one, such as
      `notes.txt`, is refused as an invalid file type and nothing is saved
      or classified. */
  lemma WrongExtensionRefused(stem: string, ext: string, secure: string -> string, config: Config,
                              forwardFor: string -> Result<seq<real>, Failure>, h: DummyHundredths)
    requires '.' !in ext && Lower(ext) !in AllowedExtensions
    ensures UploadFile(Request(Some(stem + "." + ext)), secure, config, forwardFor, h)
            == Handled(BadRequest(InvalidFileType), None)
  {
    AllowedFileLastExtension(stem, ext);
  }

  /** With the real model loaded, every acceptable upload is answered with
      success: the prediction itself whenever `predict_image` returns one,
      always of one of the three classes, or, when inference raises, the
      dummy answer with a confidence between 90.00
      and 99.99. */
  lemma RealModeUploadSucceeds(req: Request, secure: string -> string, config: Config,
                               forwardFor: string -> Result<seq<real>, Failure>, h: DummyHundredths)
    requires Acceptable(req)
    requires config.mode == "REAL" && config.modelLoaded && config.processorLoaded
    ensures var out := UploadFile(req, secure, config, forwardFor, h);
      && out.response.Uploaded?
      && out.response.prediction.displayName in DisplayNames.Values
      && (PredictImage(forwardFor(out.saved.value), Some(AppClassNames)).Ok? ==>
            Ok(out.response.prediction) == PredictImage(forwardFor(out.saved.value), Some(AppClassNames)))
      && (forwardFor(out.saved.value).Err? ==>
            out.response.prediction.displayName == DummyLabel
            && 90.0 <= out.response.prediction.confidence <= 99.99)
  {
    var out := UploadFile(req, secure, config, forwardFor, h);
    RealModeAnswers(config, forwardFor(out.saved.value), h);
  }

  /** With an unknown mode the file is saved before the mode is looked at,
      and the request then fails with a 500. */
  lemma UnknownModeSavesThenFails(req: Request, secure: string -> string, config: Config,
                                  forwardFor: string -> Result<seq<real>, Failure>, h: DummyHundredths)
    requires Acceptable(req)
    requires config.mode != "DUMMY" && config.mode != "REAL"
    ensures var out := UploadFile(req, secure, config, forwardFor, h);
      && out.saved.Some?
      && out.response == ServerError(ValueError(InvalidModeMessage(config.mode)))
      && Status(out.response) == 500
  {
  }
}
