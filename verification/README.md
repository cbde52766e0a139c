# Lymphoma classifier web app: the decision logic

This project models the pure decision logic of a Flask web app that
classifies lymphoma images into DLBCL, follicular and Hodgkin subtypes,
and proves properties of it. The model covers five pieces:

- the two filename validators. `allowed_file` guards uploads. `is_valid_image`
  filters image files using `os.path.splitext`.
- the `/upload` endpoint's chain of checks. The checks run in order: no
  `file` part, an empty filename, a disallowed extension. Only after
  them come the save, the classification and the response.
- routing on the configured `MODEL_MODE`. `DUMMY` mode always answers
  with the demo result. `REAL` mode runs the model and falls back to the
  demo result when inference raises. Any other mode is an error.
- what `predict_image` does once the softmax probabilities exist. It takes
  the first maximal index, reports that probability times 100 as the
  confidence, maps the index through the class list, and then looks up the
  display name and the description, each lookup with its own fallback.
- the supporting string and path primitives: `str.lower`, `str.rfind`
  (which underlies `rsplit('.', 1)`), and `posixpath.splitext`, `basename`
  and `join`.

Modules:

- `Outcomes`: `Option`, `Result`, and the exceptions that can arise.
- `Text`: ASCII lower-casing and last-occurrence search.
- `Paths`: POSIX `splitext`, `basename` and `join`.
- `Validators`: the two validators.
- `Predict`: the post-softmax decision.
- `Routing`: mode routing.
- `Upload`: the endpoint.

The model abstracts the parts it cannot see:

- The request is reduced to the filename of the `file` part, or its absence.
- `secure_filename` is an uninterpreted function parameter.
- Image loading, preprocessing and the CLIP forward pass together become
  one parameter: a probability vector, or the exception they raise.
- The random dummy confidence is a parameter: a whole number of
  hundredths between 9000 and 9999.
- The confidence is a real percentage.

## Model

| member | source | states |
|---|---|---|
| Text.Lower | model_utils.py:77 | `str.lower`: same length, every character lower-cased on its own (ASCII letters only) |
| Text.LastIndexOf | app.py:49 | the index of the last occurrence, or -1: that index holds the character and no later index does |
| Text.LastIndexOfAbsent | app.py:49 | there is no occurrence exactly when the character is not in the string, which is the `'.' in filename` test |
| Text.LowerKeepsLastSeparator | model_utils.py:77 | lower-casing moves neither the last '.' nor the last '/' |
| Paths.Basename | model_utils.py:77 | `posixpath.basename`: the longest suffix holding no '/', so it is the whole path or is preceded by a '/' |
| Paths.ExtensionStart | model_utils.py:77 | where `splitext` cuts: the cut is at a '.' after the last '/', nothing after it is '.' or '/', and a real cut happens exactly when a dot follows a non-dot in the basename |
| Paths.SplitExt | model_utils.py:77 | root and extension concatenate back to the path; the extension is non-empty exactly when a dot follows a non-dot past the last '/' |
| Paths.ExtensionShape | model_utils.py:77 | a non-empty extension is one '.' followed by characters that are neither '.' nor '/' |
| Paths.SplitExtBasename | model_utils.py:77 | the extension is non-empty exactly when the basename has a dot after a non-dot, as `splitext` documents |
| Paths.Join | app.py:127 | `os.path.join` with a directory not ending in '/': a relative name gives the directory, a '/', then the name; an absolute name replaces the directory |
| Validators.AllowedFile | app.py:48-49 | `allowed_file` as written: a '.' occurs and the lower-cased text after the last '.' is an allowed extension; `Validators.AllowedFileIff` characterises it independently |
| Validators.AllowedFileNeedsDot | app.py:49 | a name without '.' is never an allowed upload |
| Validators.AllowedFileLastExtension | app.py:48-49 | for `stem.ext` with a dot-free `ext`, the name is allowed exactly when `ext` lower-cased is png, jpg, jpeg or webp, whatever the stem (so `a.gif.png` is allowed and `a.png.gif` is not) |
| Validators.AllowedFileIff | app.py:48-49 | the name is allowed exactly when some '.' has no '.' after it and the rest, lower-cased, is an allowed extension |
| Validators.AllowedFileCaseInsensitive | app.py:49 | two names equal up to case are both allowed or both refused |
| Validators.AllowedFileOfLower | app.py:49 | a name is allowed exactly when its lower-cased form is |
| Validators.IsValidImage | model_utils.py:71-78 | `is_valid_image` as written: the `splitext` extension of the lower-cased name is one of the seven valid extensions; `Validators.IsValidImageIff` characterises it independently |
| Validators.SplitExtOfExtended | model_utils.py:77 | the `splitext` extension of `s.e` (with `e` free of '.' and '/') is `.e`, unless the basename of `s` is all dots, in which case it is empty |
| Validators.IsValidImageLastExtension | model_utils.py:76-78 | for `stem.ext` with `ext` free of '.' and '/', the name is a valid image exactly when the stem's basename is not all dots and `.ext` lower-cased is one of the seven valid extensions |
| Validators.IsValidImageIff | model_utils.py:76-78 | a valid image is exactly a name with a '.' that has no '.' or '/' after it, has a non-dot before it in the basename, and is followed by a valid extension in any case |
| Validators.ValidImageAtLastDot | model_utils.py:77-78 | a valid image contains a '.', and its last '.' is where the valid extension starts |
| Validators.IsValidImageCaseInsensitive | model_utils.py:77 | the image filter decides a name exactly as it decides the lower-cased name |
| Validators.IsValidImageNeedsDot | model_utils.py:77-78 | a name without '.' is never a valid image |
| Validators.LeadingDotsOnly | model_utils.py:77-78 | a name made of leading dots plus one extension (`.png`, `..jpg`) is never a valid image, while the upload rule accepts it when the extension is allowed |
| Validators.AllowedExtensionsAreValid | model_utils.py:76 | each upload extension, with a dot in front, is also a valid image extension |
| Validators.AllowedFileIsValidImage | model_utils.py:76-78 | an allowed upload `stem.ext` whose stem's basename is not all dots also passes the image filter |
| Predict.FirstMaxIndex | model_utils.py:149-152 | the chosen index holds a maximal probability, and every earlier entry is strictly smaller (ties go to the first) |
| Predict.FirstMaxUnique | model_utils.py:149 | at most one index satisfies the first-maximum property, so the choice is determined |
| Predict.PredictFromProbabilities | model_utils.py:149-175 | the result succeeds exactly when the first-max index is below the class list's length. On success the confidence is that probability times 100 and the name and description are looked up from the class code at that index. Otherwise it is an IndexError |
| Predict.PredictImage | model_utils.py:142-156 | an exception from preprocessing or the forward pass propagates unchanged; otherwise the post-softmax decision is made |
| Predict.ClassNames | model_utils.py:138-139 | a missing class list becomes the default three codes; a given list, even an empty one, is used as it is |
| Predict.DefaultClassesPredict | model_utils.py:138-139 | with no class list, a vector of at most three probabilities always yields the full name and description of the default code at the first-max index |
| Predict.TablesCoverDefaultClasses | model_utils.py:159-170 | both tables have exactly the three default codes as keys |
| Predict.DisplayName | model_utils.py:159-172 | a known code gets a full name different from itself; any other code is its own display name |
| Predict.Description | model_utils.py:166-173 | the generic sentence is given exactly to the codes outside the default list; known codes get their own sentence |
| Predict.MaxPercentBounds | model_utils.py:148-153 | on a softmax output the reported percentage is at most 100, and times the class count it is at least 100 |
| Predict.ConfidenceBounds | model_utils.py:148-153 | with the three-logit head, a successful prediction's confidence lies between 100/3 and 100 |
| Predict.KnownClassesPredictConsistently | model_utils.py:156-173 | a class list of known codes, as long as the vector, always succeeds, and the display name and description belong to the same code |
| Predict.ClassListLength | model_utils.py:156 | with three logits, a class list of at least three entries never fails; with a shorter one every vector whose last class is the first maximum raises IndexError, and such vectors exist |
| Routing.ClassifyWithDummyModel | app.py:51-66 | always the DLBCL full name and description, with a confidence between 90.00 and 99.99 in whole hundredths |
| Routing.DummyConfidenceRange | app.py:51-53 | every two-decimal percentage from 90.00 to 99.99 is a possible dummy confidence |
| Routing.DummyMimicsDlbclPrediction | app.py:61-66 | the dummy answer's name and description are exactly those of a genuine DLBCL prediction |
| Routing.ClassifyWithMlModel | app.py:76-96 | an unloaded model or processor raises RuntimeError with the fixed message. With both loaded, a successful `predict_image` result is returned as it is, and only a raising one is replaced by the dummy result |
| Routing.ClassifyImage | app.py:104-109 | fails exactly for an unknown mode (ValueError naming the mode) or for REAL mode without a loaded model. Every answer is the dummy result or, in REAL mode, the prediction, and in REAL mode with a loaded model a successful prediction is what is returned |
| Routing.DummyModeIgnoresModel | app.py:104-105 | DUMMY mode answers with the dummy result whatever the model state and the image |
| Routing.NotLoadedIsNotMasked | app.py:76-77 | in REAL mode an unloaded model is reported and not replaced by the fallback |
| Routing.FallbackEqualsDummyMode | app.py:93-96 | when inference raises in REAL mode the answer equals what DUMMY mode gives |
| Routing.RealModeAnswers | app.py:79-96 | REAL mode with a loaded model never fails. It yields a known display name with the same class's description, and a failed forward pass yields the dummy answer |
| Upload.UploadFile | app.py:116-142 | rejects with 400 exactly the requests that fail a check. It saves exactly the accepted ones, under `uploads/` joined with the secured name. The image URL is `/uploads/` plus the secured name, and the prediction or 500 failure is the classification's outcome |
| Upload.RejectionOrder | app.py:117-123 | a missing part is reported first, then an empty filename, then a wrong extension; status 400 is exactly a rejection |
| Upload.WrongExtensionRefused | app.py:142 | a name whose last extension is not allowed is refused as an invalid file type, and nothing is saved |
| Upload.RealModeUploadSucceeds | app.py:125-140 | with the real model loaded, every acceptable upload succeeds with a known display name. A successful `predict_image` result is the payload's prediction, and a failed inference gives the dummy label with a 90.00 to 99.99 confidence |
| Upload.UnknownModeSavesThenFails | app.py:125-131 | with an unknown mode the file is saved and the request then fails with a 500 carrying the ValueError |

## Left out

- `torch.softmax`, the logits and floating point. Probabilities are abstract reals, and a softmax output is described only by `Predict.IsDistribution`.
- `DeepCLIPClassifier`, `load_model`, `preprocess_image`, CLIP and the processor. These are foreign ML library calls and image decoding. Together they are the `forward` parameter, a probability vector or a failure.
- `load_ml_model` and startup. Whether the model and processor were loaded is a field of `Routing.Config`.
- The `:.2f%` rendering of confidences. Confidence is kept as a real percentage.
- `random.uniform`. The draw is a parameter `h` of type `DummyHundredths`; no distribution is modelled.
- `secure_filename`, which is third-party code, is an uninterpreted parameter.
- `file.save`, `os.makedirs` and filesystem errors. A save is recorded as the path it would write to, and save errors are not modelled.
- `MAX_CONTENT_LENGTH`. The framework reads the body lazily, so an oversized upload raises a 413 inside the handler when `request.files` is first read (app.py:117), and nothing is saved. The model's request is already parsed, so this path is not modelled.
- `uploaded_file` / `send_from_directory` and the index page are file serving and templating.
- Flask's JSON encoding. A response is a datatype; the `success: true` field is implied by the `Uploaded` constructor.
- The `print` logging of caught exceptions.
- app_gradio.py and static/js/main.js are UI code: downloads, temporary files, HTML and DOM handling.
- `str.lower` is modelled on ASCII letters only. Non-ASCII case mapping, such as for `Ä` or the Kelvin sign, is not modelled.
- `os.path` is modelled with POSIX semantics, where only '/' separates. Windows `ntpath` is not modelled.
- Predict.PredictImage: when the probability vector is empty it reports the abstract `InferenceError`, not the exact exception `torch.max` raises. Both are caught by the same handler.
- Predict.ConfidenceBounds: stated only for the three-logit head; `Predict.MaxPercentBounds` holds the bound for any length.
