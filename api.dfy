/** The upload/ask state machine (app/api.py) over a content-addressed
    document store: a map from the MD5 hex digest of an image to its record
    (app/database.py). `UploadOutcome` and `AskOutcome` say what one request
    answers and what the store becomes; `DocumentService` performs the
    requests step by step on a store it owns, with ghost logs of every call
    into the extractor and into the chat backend. */
module Api {
  import opened Calls
  import opened PyStr
  import Ocr
  import Llm

  /** One row of the `documents` table; `id` is the primary key. */
  datatype Record = Record(id: string, filename: string, extractedText: string)

  type Store = map<string, Record>

  /** The JSON body of a successful upload. */
  datatype UploadBody = UploadBody(id: string, filename: string, message: string)

  /** A response: a body, or an `HTTPException` with its status and detail. */
  datatype Response<T> = Ok(body: T) | HttpError(status: nat, detail: string)

  /** The content addresser (`hashlib.md5(content).hexdigest()`) and the
      extraction libraries. */
  datatype Env = Env(md5: Ocr.Bytes -> string, vision: Ocr.Vision)

  const NotAnImage: string := "File must be an image."
  const AlreadyExists: string := "Document already exists"
  const Processed: string := "Processed successfully"
  const NoTextDetected: string := "No text detected."
  const DocumentNotFound: string := "Document not found"

  /** `str(e)` of `HTTPException(status_code=400, detail="No text detected.")`,
      which Starlette formats as "<status>: <detail>". The outer handler
      turns this exception into a 500 with that string as detail. */
  const NoTextDetectedWrapped: string := "400: " + NoTextDetected

  /** `content_type.startswith("image/")`: the first six characters are "image/". */
  predicate IsImageType(contentType: string)
    ensures IsImageType(contentType) <==> |contentType| >= 6 && contentType[..6] == "image/"
  {
    "image/" <= contentType
  }

  /** What one upload answers, the store after it, and whether the text
      extractor was invoked. */
  datatype UploadStep = UploadStep(response: Response<UploadBody>, store: Store, extracted: bool)

  /** `upload_document` as one step on the store: the extractor runs only
      for an image whose digest is not stored, no record is ever removed or
      altered, and the store changes exactly when the answer is
      "Processed successfully". */
  function UploadOutcome(env: Env, store: Store, contentType: string, filename: string, content: Ocr.Bytes): (step: UploadStep)
    ensures step.extracted <==> IsImageType(contentType) && env.md5(content) !in store
    ensures store.Keys <= step.store.Keys
    ensures forall id | id in store :: step.store[id] == store[id]
    ensures step.store != store <==> step.response == Ok(UploadBody(env.md5(content), filename, Processed))
    ensures step.response.HttpError? ==> step.response.status in {400, 500}
  {
    if !IsImageType(contentType) then
      UploadStep(HttpError(400, NotAnImage), store, false)
    else
      var fileHash := env.md5(content);
      if fileHash in store then
        UploadStep(Ok(UploadBody(store[fileHash].id, store[fileHash].filename, AlreadyExists)), store, false)
      else
        match Ocr.ExtractText(env.vision, content)
        case Failed(m) => UploadStep(HttpError(500, m), store, true)
        case Text(t) =>
          if Strip(t) == "" then
            UploadStep(HttpError(500, NoTextDetectedWrapped), store, true)
          else
            UploadStep(Ok(UploadBody(fileHash, filename, Processed)), store[fileHash := Record(fileHash, filename, t)], true)
  }

  /** The request `ask_question` sends to the chat backend, or `None` when
      it sends none. */
  function AskRequest(store: Store, documentId: string, question: string): (req: Option<Llm.ChatRequest>)
    ensures req.Some? <==> documentId in store
    ensures req.Some? ==>
      var text := store[documentId].extractedText;
      && |req.value.messages| == 2
      && |req.value.messages[1].content| >= 9 + |text|
      && req.value.messages[1].content[9..9 + |text|] == text
  {
    if documentId in store then Some(Llm.BuildRequest(store[documentId].extractedText, question)) else None
  }

  /** `ask_question` as one read of the store. */
  function AskOutcome(store: Store, documentId: string, question: string, backend: Llm.Backend): (r: Response<string>)
    ensures r.HttpError? <==> documentId !in store
    ensures r.HttpError? ==> r == HttpError(404, DocumentNotFound)
  {
    if documentId !in store then HttpError(404, DocumentNotFound)
    else Ok(Llm.AskLlm(store[documentId].extractedText, question, backend))
  }

  /** What the primary key guarantees of any `documents` table: every record
      sits under its own id. */
  predicate KeysAreIds(store: Store)
  {
    forall id | id in store :: store[id].id == id
  }

  /** The store invariant kept by uploads: every record sits under its own
      id, holds text that is not blank, and that text is what extraction
      gives for some bytes whose digest is the id. */
  ghost predicate StoreValid(env: Env, store: Store)
    ensures StoreValid(env, store) ==> KeysAreIds(store)
    ensures StoreValid(env, map[])
  {
    forall id | id in store ::
      && store[id].id == id
      && !IsBlank(store[id].extractedText)
      && exists b: Ocr.Bytes :: env.md5(b) == id && Ocr.ExtractText(env.vision, b) == Ocr.Text(store[id].extractedText)
  }

  /** A content type that does not start with "image/" is rejected with 400
      before anything else: the answer depends neither on the bytes, nor on
      the filename, nor on the hash or the extractor, and the store is unchanged. */
  lemma NonImageRejectedFirst(env: Env, other: Env, store: Store, contentType: string,
                              filename: string, otherName: string, content: Ocr.Bytes, otherContent: Ocr.Bytes)
    requires !IsImageType(contentType)
    ensures UploadOutcome(env, store, contentType, filename, content) == UploadStep(HttpError(400, NotAnImage), store, false)
    ensures UploadOutcome(other, store, contentType, otherName, otherContent) == UploadOutcome(env, store, contentType, filename, content)
  {
  }

  /** A successful upload answers with the digest of the bytes as id, whatever
      the filename; so the same bytes always get the same id. */
  lemma IdIsContentHash(env: Env, store: Store, store': Store, contentType: string, contentType': string,
                        filename: string, filename': string, content: Ocr.Bytes)
    requires KeysAreIds(store) && KeysAreIds(store')
    ensures UploadOutcome(env, store, contentType, filename, content).response.Ok? ==>
      UploadOutcome(env, store, contentType, filename, content).response.body.id == env.md5(content)
    ensures UploadOutcome(env, store, contentType, filename, content).response.Ok? &&
            UploadOutcome(env, store', contentType', filename', content).response.Ok? ==>
      UploadOutcome(env, store, contentType, filename, content).response.body.id ==
      UploadOutcome(env, store', contentType', filename', content).response.body.id
  {
  }

  /** Bytes whose digest is already stored short-circuit: the stored id and
      the STORED filename come back with "Document already exists",
      extraction is not invoked and the store is unchanged. */
  lemma DuplicateShortCircuits(env: Env, store: Store, contentType: string, filename: string, content: Ocr.Bytes)
    requires KeysAreIds(store)
    requires IsImageType(contentType) && env.md5(content) in store
    ensures UploadOutcome(env, store, contentType, filename, content) ==
      UploadStep(Ok(UploadBody(env.md5(content), store[env.md5(content)].filename, AlreadyExists)), store, false)
  {
  }

  /** Text that is empty after stripping whitespace is not stored; the
      "No text detected." exception is caught by the outer handler and
      surfaces as a 500. */
  lemma BlankTextRejected(env: Env, store: Store, contentType: string, filename: string, content: Ocr.Bytes)
    requires IsImageType(contentType) && env.md5(content) !in store
    requires Ocr.ExtractText(env.vision, content).Text?
    requires IsBlank(Ocr.ExtractText(env.vision, content).text)
    ensures UploadOutcome(env, store, contentType, filename, content) ==
      UploadStep(HttpError(500, NoTextDetectedWrapped), store, true)
  {
  }

  /** Any extractor failure becomes a 500 carrying the exception's message,
      and the store is unchanged. */
  lemma ExtractorFailureIs500(env: Env, store: Store, contentType: string, filename: string, content: Ocr.Bytes)
    requires IsImageType(contentType) && env.md5(content) !in store
    requires Ocr.ExtractText(env.vision, content).Failed?
    ensures UploadOutcome(env, store, contentType, filename, content) ==
      UploadStep(HttpError(500, Ocr.ExtractText(env.vision, content).message), store, true)
  {
  }

  /** A new upload whose text is not blank adds exactly one record, under the
      digest, holding the uploaded filename and the untrimmed text; every
      other record is unchanged and the answer is "Processed successfully". */
  lemma NewUploadInserts(env: Env, store: Store, contentType: string, filename: string, content: Ocr.Bytes, text: string)
    requires IsImageType(contentType) && env.md5(content) !in store
    requires Ocr.ExtractText(env.vision, content) == Ocr.Text(text)
    requires !IsBlank(text)
    ensures UploadOutcome(env, store, contentType, filename, content).response == Ok(UploadBody(env.md5(content), filename, Processed))
    ensures UploadOutcome(env, store, contentType, filename, content).extracted
    ensures UploadOutcome(env, store, contentType, filename, content).store == store[env.md5(content) := Record(env.md5(content), filename, text)]
    ensures UploadOutcome(env, store, contentType, filename, content).store.Keys == store.Keys + {env.md5(content)}
    ensures |UploadOutcome(env, store, contentType, filename, content).store| == |store| + 1
    ensures forall id | id in store :: UploadOutcome(env, store, contentType, filename, content).store[id] == store[id]
  {
    var h := env.md5(content);
    StripEmptyIffBlank(text);
    assert UploadOutcome(env, store, contentType, filename, content)
      == UploadStep(Ok(UploadBody(h, filename, Processed)), store[h := Record(h, filename, text)], true);
    InsertAddsOneKey(store, h, Record(h, filename, text));
  }

  /** Inserting under an absent key adds that one key and keeps every other entry. */
  lemma InsertAddsOneKey(store: Store, h: string, r: Record)
    requires h !in store
    ensures store[h := r].Keys == store.Keys + {h}
    ensures |store[h := r]| == |store| + 1
    ensures forall id | id in store :: store[h := r][id] == store[id]
  {
  }

  /** Every upload keeps the store invariant, never removes or alters a
      record, and leaves the store unchanged unless it answers
      "Processed successfully". */
  lemma UploadPreservesStore(env: Env, store: Store, contentType: string, filename: string, content: Ocr.Bytes)
    requires StoreValid(env, store)
    ensures var step := UploadOutcome(env, store, contentType, filename, content);
      && StoreValid(env, step.store)
      && store.Keys <= step.store.Keys
      && (forall id | id in store :: step.store[id] == store[id])
      && (step.store != store ==> step.response == Ok(UploadBody(env.md5(content), filename, Processed)))
  {
    var step := UploadOutcome(env, store, contentType, filename, content);
    if step.store != store {
      var h := env.md5(content);
      var t := Ocr.ExtractText(env.vision, content).text;
      StripEmptyIffBlank(t);
      forall id | id in step.store
        ensures && step.store[id].id == id
                && !IsBlank(step.store[id].extractedText)
                && exists b: Ocr.Bytes :: env.md5(b) == id && Ocr.ExtractText(env.vision, b) == Ocr.Text(step.store[id].extractedText)
      {
        if id == h {
          assert env.md5(content) == id && Ocr.ExtractText(env.vision, content) == Ocr.Text(step.store[id].extractedText);
        } else {
          assert step.store[id] == store[id];
        }
      }
    }
  }

  /** Uploading the same bytes twice to a store keyed by id: after a successful
      first upload the second one is a duplicate that reports the first
      filename and does not extract, so extraction runs exactly once in
      total. A failed first upload stores nothing, so the second extracts
      again; bytes already stored are never extracted. */
  lemma UploadTwiceExtractsOnce(env: Env, store: Store, contentType: string, f1: string, f2: string, content: Ocr.Bytes)
    requires KeysAreIds(store) && IsImageType(contentType)
    ensures var first := UploadOutcome(env, store, contentType, f1, content);
      var second := UploadOutcome(env, first.store, contentType, f2, content);
      var h := env.md5(content);
      && (first.response.Ok? ==> second.response == Ok(UploadBody(h, first.response.body.filename, AlreadyExists)))
      && (first.response == Ok(UploadBody(h, f1, Processed)) ==> second.response == Ok(UploadBody(h, f1, AlreadyExists)))
      && second.store == first.store
      && (if first.extracted then 1 else 0) + (if second.extracted then 1 else 0)
         == (if h in store then 0 else if first.response.Ok? then 1 else 2)
  {
  }

  /** An unknown id answers 404 "Document not found" and sends no request:
      the answer is the same whatever the backend would do. */
  lemma UnknownIdNotFound(store: Store, documentId: string, question: string, backend: Llm.Backend, other: Llm.Backend)
    requires documentId !in store
    ensures AskOutcome(store, documentId, question, backend) == HttpError(404, DocumentNotFound)
    ensures AskOutcome(store, documentId, question, other) == AskOutcome(store, documentId, question, backend)
    ensures AskRequest(store, documentId, question) == None
  {
  }

  /** A known id sends one request whose user message carries the record's
      full stored text and the question, and never fails: the answer is the
      backend's first choice unchanged, or the fallback when the call fails. */
  lemma KnownIdForwardsFullText(store: Store, documentId: string, question: string, backend: Llm.Backend)
    requires documentId in store
    ensures var text := store[documentId].extractedText;
      var req := Llm.BuildRequest(text, question);
      && AskRequest(store, documentId, question) == Some(req)
      && req.messages[1].content[9..9 + |text|] == text
      && AskOutcome(store, documentId, question, backend).Ok?
      && (backend(req).Returned? && |backend(req).value.choices| > 0 ==>
            AskOutcome(store, documentId, question, backend).body == backend(req).value.choices[0])
      && (backend(req).Raised? || backend(req).value.choices == [] ==>
            AskOutcome(store, documentId, question, backend).body == Llm.FallbackAnswer)
  {
  }

  /** The document service: the store it owns, the libraries it was built
      with, and ghost logs of what it handed to the extractor and sent to
      the chat backend. */
  class DocumentService {
    const env: Env
    var docs: Store
    ghost var extractorInputs: seq<Ocr.Bytes>
    ghost var llmRequests: seq<Llm.ChatRequest>

    ghost predicate Valid()
      reads this
    {
      StoreValid(env, docs)
    }

    constructor (env: Env)
      ensures Valid()
      ensures this.env == env
      ensures docs == map[] && extractorInputs == [] && llmRequests == []
    {
      this.env := env;
      docs := map[];
      extractorInputs := [];
      llmRequests := [];
    }

    /** `upload_document`: reject a non-image type, hash, look up, extract,
        reject blank text, insert. */
    method UploadDocument(contentType: string, filename: string, content: Ocr.Bytes) returns (response: Response<UploadBody>)
      requires Valid()
      modifies this
      ensures Valid()
      ensures var step := UploadOutcome(env, old(docs), contentType, filename, content);
        && response == step.response
        && docs == step.store
        && extractorInputs == old(extractorInputs) + (if step.extracted then [content] else [])
      ensures llmRequests == old(llmRequests)
    {
      UploadPreservesStore(env, docs, contentType, filename, content);
      if !IsImageType(contentType) {
        return HttpError(400, NotAnImage);
      }
      var fileHash := env.md5(content);
      if fileHash in docs {
        var current := docs[fileHash];
        return Ok(UploadBody(current.id, current.filename, AlreadyExists));
      }
      var extracted := Ocr.ExtractText(env.vision, content);
      extractorInputs := extractorInputs + [content];
      match extracted
      case Failed(message) =>
        response := HttpError(500, message);
      case Text(text) =>
        if Strip(text) == "" {
          response := HttpError(500, NoTextDetectedWrapped);
        } else {
          var newDoc := Record(fileHash, filename, text);
          docs := docs[fileHash := newDoc];
          response := Ok(UploadBody(newDoc.id, newDoc.filename, Processed));
        }
    }

    /** `ask_question`: look up, 404 when absent, otherwise one call to the
        chat backend with the stored text. */
    method AskQuestion(documentId: string, question: string, backend: Llm.Backend) returns (response: Response<string>)
      modifies this`llmRequests
      ensures response == AskOutcome(docs, documentId, question, backend)
      ensures llmRequests == old(llmRequests) +
        (match AskRequest(docs, documentId, question) case Some(req) => [req] case None => [])
    {
      if documentId !in docs {
        return HttpError(404, DocumentNotFound);
      }
      var doc := docs[documentId];
      llmRequests := llmRequests + [Llm.BuildRequest(doc.extractedText, question)];
      var answer := Llm.AskLlm(doc.extractedText, question, backend);
      response := Ok(answer);
    }
  }

  /** The duplicate-upload scenario on a fresh service: the same bytes sent
      twice under two filenames. When the first upload succeeds, the second
      reports the same id and the first filename with "Document already
      exists", and the extractor has been invoked exactly once. */
  method UploadTwice(env: Env, contentType: string, f1: string, f2: string, content: Ocr.Bytes)
    returns (first: Response<UploadBody>, second: Response<UploadBody>, ghost extractions: nat)
    requires IsImageType(contentType)
    ensures first.Ok? ==> first.body == UploadBody(env.md5(content), f1, Processed)
    ensures first.Ok? ==> second == Ok(UploadBody(env.md5(content), f1, AlreadyExists)) && extractions == 1
    ensures first.HttpError? ==> first.status == 500 && extractions == 2
    ensures first == UploadOutcome(env, map[], contentType, f1, content).response
    ensures second == UploadOutcome(env, UploadOutcome(env, map[], contentType, f1, content).store, contentType, f2, content).response
    ensures Ocr.ExtractText(env.vision, content).Text? && !IsBlank(Ocr.ExtractText(env.vision, content).text) ==>
      first == Ok(UploadBody(env.md5(content), f1, Processed))
  {
    var service := new DocumentService(env);
    first := service.UploadDocument(contentType, f1, content);
    second := service.UploadDocument(contentType, f2, content);
    extractions := |service.extractorInputs|;
    if Ocr.ExtractText(env.vision, content).Text? {
      StripEmptyIffBlank(Ocr.ExtractText(env.vision, content).text);
    }
  }
}
