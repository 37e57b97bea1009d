# Document ingestion and question answering, modelled in Dafny

This project models the core of a small document-intelligence service. A client
uploads a scanned image. The service fingerprints the bytes with MD5 and keeps
one record per fingerprint in a document store. A new image goes through text
extraction: decode, grayscale, sharpen if blurry, OCR, join the fragments with
spaces. A client can then ask a question about a stored document. The service
sends the stored text and the question to a chat model and returns its answer.
If that call fails, it returns a fixed fallback answer.

Modules: `Calls` and `PyStr` are helpers with no source file of their own;
the other three follow one source file each.

- `Calls` (`calls.dfy`): `Option`, and `Call` for the outcome of a library call.
  A call returns a value or raises an exception with a message.
- `PyStr` (`pystr.dfy`): the Python string operations the core uses.
  These are `str.strip()` (with Python's whitespace set) and `" ".join`.
  It also has `str.split(" ")`, used as the reference that shows the join loses nothing.
- `Ocr` (`ocr.dfy`, app/ocr.py): `extract_text` as a pure function over a
  `Vision` record. That record holds the five library calls: decode,
  grayscale, blur test, sharpen and OCR. Any of them may raise.
- `Llm` (`llm.dfy`, app/llm.py): the prompt, the request (system message
  first, then user message), and `ask_llm`'s rule of returning the first choice
  or the fallback answer.
- `Api` (`api.dfy`, app/api.py and the record layout of app/database.py).
  - `UploadOutcome` and `AskOutcome` state what one request answers and what
    the store becomes.
  - `DocumentService` is a class. It owns the store as a `map` field, and its
    methods update that map step by step as the handlers do.
  - Two ghost logs record every byte string given to the extractor and every
    request sent to the chat backend.
  - `UploadTwice` runs the duplicate-upload scenario from the tests on a fresh
    service.

Behaviour the model follows from the code:

- The stored text is the untrimmed extraction result (app/api.py:36); it is
  not stripped first. Stripping only decides whether the text is blank.
- Blank text raises `HTTPException(400, "No text detected.")` inside the `try`.
  The outer `except Exception` catches it and raises a 500 whose detail is
  `str(e)`. Starlette formats that as "400: No text detected.". The model
  answers `HttpError(500, "400: No text detected.")`.
- A duplicate upload answers with the stored id and the stored filename. It
  does not use the filename of the new upload.
- A failed extraction stores nothing. Uploading the same bytes again therefore
  runs the extractor again; `UploadTwiceExtractsOnce` states both cases.
- The blur test does not clamp its slice window (app/ocr.py:14); the model
  treats the blur test as an abstract call and adds no clamping.

## Model

| member | source | states |
|---|---|---|
| `PyStr.IsSpaceIsWhitespace` | app/api.py:33 | a character is whitespace for `str.strip()` exactly when it is one of the 29 code points listed in `Whitespace` |
| `PyStr.TrimStart` | app/api.py:33 | the result is a suffix of the input, everything cut off is whitespace, and the result does not start with whitespace |
| `PyStr.TrimEnd` | app/api.py:33 | the result is a prefix of the input, everything cut off is whitespace, and the result does not end with whitespace |
| `PyStr.Strip` | app/api.py:33 | `s.strip()` neither starts nor ends with whitespace |
| `PyStr.StripIsSlice` | app/api.py:33 | `s.strip()` is a contiguous slice of `s`, and everything cut off on either side is whitespace |
| `PyStr.StripEmptyIffBlank` | app/api.py:33 | `not s.strip()` holds exactly when every character of `s` is Python whitespace |
| `PyStr.JoinSpace` | app/ocr.py:37 | the first fragment is a prefix and the last fragment a suffix of the joined text |
| `PyStr.JoinBaseCases` | app/ocr.py:37 | an empty fragment list joins to "" and a single fragment comes back unchanged |
| `PyStr.JoinAppend` | app/ocr.py:37 | joining two non-empty runs of fragments gives the two joins separated by one space, in order |
| `PyStr.SplitJoin` | app/ocr.py:36-38 | splitting the joined text on spaces gives back exactly the space-free fragments: none dropped, merged or reordered |
| `Ocr.OcrInput` | app/ocr.py:26-34 | bytes that decode to no image raise "Invalid image data"; an image reaching OCR is the sharpened grayscale image when the blur test holds and the grayscale image otherwise, after decode, grayscale and blur test all returned |
| `Ocr.ExtractText` | app/ocr.py:24-42 | bytes that decode to no image fail with "Invalid image data"; a text result is the OCR engine's fragments for the final image joined by single spaces |
| `Ocr.InvalidImageStops` | app/ocr.py:26-30 | bytes that decode to no image fail with "Invalid image data"; the outcome does not depend on grayscale, blur test, sharpen or OCR |
| `Ocr.SharpenExactlyWhenBlurry` | app/ocr.py:32-34 | OCR gets the sharpened image exactly when the blur test holds, and the unmodified grayscale image otherwise |
| `Ocr.OcrOnFinalImage` | app/ocr.py:36-38 | the result depends on the OCR engine only through its one reading of the final image: its error, or its fragments joined by spaces |
| `Ocr.TextIsJoinedFragments` | app/ocr.py:36-38 | a successful extraction is the engine's fragments for the final image joined by single spaces, in engine order, none dropped |
| `Ocr.ExceptionsReraised` | app/ocr.py:24-42 | an exception raised by decode, grayscale, blur test, sharpen or OCR comes out as a failure with the same message |
| `Llm.UserMessage` | app/llm.py:18 | the user message is "Context:\n", the whole context, "\n\nQuestion:\n" and the whole question, each at its fixed offset |
| `Llm.UserMessageInjective` | app/llm.py:18 | with the question fixed, different contexts give different user messages, and the same holds for questions: nothing is truncated |
| `Llm.BuildRequest` | app/llm.py:14-26 | two messages, the system prompt first and then the user message, to the fixed model |
| `Llm.AskLlm` | app/llm.py:11-31 | the answer is the first choice of the backend's reply to the built request when there is one, and "Error processing the question." when the call raises or has no choices |
| `Llm.ReturnsFirstChoice` | app/llm.py:27 | on success the first choice's content is returned unchanged |
| `Llm.FallbackOnFailure` | app/llm.py:29-31 | an exception or a completion with no choices gives "Error processing the question."; every failure gives the same answer |
| `Llm.AnswerIsFirstChoiceOrFallback` | app/llm.py:12-31 | the answer is always the first choice or the fallback, and it depends on the backend only through its reply to this request |
| `Api.IsImageType` | app/api.py:16 | a content type is accepted exactly when its first six characters are "image/" |
| `Api.UploadOutcome` | app/api.py:14-45 | the extractor runs exactly for an image whose digest is not stored; no record is removed or altered; the store changes exactly when the answer is "Processed successfully"; every error is a 400 or a 500 |
| `Api.AskRequest` | app/api.py:47-55 | a request is sent exactly for a stored id; it has two messages and the user message carries the record's whole stored text |
| `Api.AskOutcome` | app/api.py:47-55 | the answer is an error exactly when the id is not stored, and that error is 404 "Document not found" |
| `Api.StoreValid` | app/database.py:16-21 | the store invariant implies that every record sits under its own id (the primary key), and the empty store satisfies it |
| `Api.NonImageRejectedFirst` | app/api.py:16-17 | a content type not starting with "image/" gives 400 "File must be an image." and leaves the store unchanged; the outcome does not depend on bytes, filename, hash or extractor |
| `Api.IdIsContentHash` | app/api.py:21-41 | for stores whose records sit under their own ids, a successful upload's id is the digest of the bytes, so the same bytes get the same id whatever the filename |
| `Api.DuplicateShortCircuits` | app/api.py:22-29 | for a store whose records sit under their own ids, a stored digest returns that id and the stored filename with "Document already exists", without extraction, and leaves the store unchanged |
| `Api.BlankTextRejected` | app/api.py:33-45 | all-whitespace text is not stored; the answer is 500 "400: No text detected." |
| `Api.ExtractorFailureIs500` | app/api.py:31-45 | an extractor failure gives 500 with the exception's message and leaves the store unchanged |
| `Api.NewUploadInserts` | app/api.py:36-41 | a new upload whose extracted text is not blank adds exactly one record under the digest (one more key, one more entry), holding the uploaded filename and the untrimmed text; other records are unchanged; the answer is "Processed successfully" |
| `Api.UploadPreservesStore` | app/api.py:14-45 | every upload keeps the store invariant (ids match keys, text not blank, text extracted from bytes with that digest), never removes or changes a record, and changes the store only when it answers "Processed successfully" |
| `Api.UploadTwiceExtractsOnce` | app/api.py:22-31 | the same bytes uploaded twice to a store keyed by id: after a successful first upload the second reports the first filename and does not extract (one extraction in total); after a failed one it extracts again; stored bytes are never extracted |
| `Api.UnknownIdNotFound` | app/api.py:49-52 | an unknown id gives 404 "Document not found" and sends no request to the chat backend |
| `Api.KnownIdForwardsFullText` | app/api.py:54-55 | a known id sends one request whose user message carries the record's full stored text, never fails, and returns the backend's first choice unchanged or the fallback |
| `Api.DocumentService.UploadDocument` | app/api.py:14-45 | performs one upload on the owned store as `UploadOutcome` describes, keeps the invariant, and logs the bytes when the extractor runs |
| `Api.DocumentService.AskQuestion` | app/api.py:47-55 | answers as `AskOutcome` describes and logs exactly the one request sent, or none for an unknown id |
| `Api.UploadTwice` | tests/test.py:66-83 | on a fresh service both answers are those `UploadOutcome` gives from the empty store; when extraction yields non-blank text the first answers "Processed successfully" with the digest and first filename, the second returns that id and filename with "Document already exists", and the extractor ran once; a failed first upload is a 500 and the extractor runs twice |

## Left out

- The FFT blur metric (`_is_blurry`, app/ocr.py:9-18) uses complex floating point, logarithms and a float threshold. It is the abstract call `Vision.isBlurry`.
- The unsharp mask (`_sharpen_image`, app/ocr.py:20-22) is OpenCV's Gaussian blur with saturating `addWeighted`. It is the abstract call `Vision.sharpen`, so no claim is made that it keeps the image's shape.
- Image decoding, grayscale conversion and the EasyOCR model are foreign libraries. They are the abstract calls `decode`, `toGray` and `readText`. The module-level OCR reader becomes the injected `Vision` record.
- MD5 is a library call. It is the deterministic abstract function `Env.md5`, and a digest collision counts as the same document.
- The SQLAlchemy session, commit and refresh are storage plumbing, modelled as a map update. A failing commit, which would surface as a 500, is not modelled.
- `upload_timestamp` is a wall-clock default and is not part of `Record`.
- `await file.read()` is I/O. The uploaded bytes are a parameter, and a failing read is not modelled.
- Api.DocumentService.UploadDocument: the content type is a string. The case where the framework supplies no content type, so that `startswith` fails outside the handler's `try`, is not modelled.
- The logging calls are left out (console I/O).
- `run_in_threadpool`, async/await and the race between lookup and insert are concurrency. Requests run one at a time in the model.
- The Groq client, its API key and environment loading are network I/O. The backend is a function parameter of each ask, so replies may differ between calls.
- The library calls (`Env.md5` and every `Vision` call) are deterministic functions of their input. A transient failure that a retry would overcome is not modelled: bytes whose extraction failed fail the same way when uploaded again, which `UploadTwiceExtractsOnce` relies on when it states that the second upload leaves the store as the first left it.
- Llm.AskLlm: the first choice's content is modelled as a string. A `None` content, which would then fail response validation, is not modelled.
- FastAPI routing, CORS, lifespan, the health and root endpoints (app/main.py) and the pydantic schemas (app/schemas.py) are framework glue, left out.
- usage.py is the interactive command-line client, left out.
