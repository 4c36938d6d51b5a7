/**
 * `RAGChatbot` of `rag_engine.py`: the API-key check of its constructor,
 * the ingestion loop of `process_files` and the answer assembly of
 * `get_response`. The libraries it delegates to (the PDF and text loaders,
 * the text splitter, the Chroma retriever and the Gemini model) are
 * function-valued parameters; each may raise, except the splitter.
 */
module RagEngine {
  import opened Wrappers
  import opened Text
  import opened Encoding

  // ---------------------------------------------------------------------------
  // Entities
  // ---------------------------------------------------------------------------

  /** A LangChain document: its text and its metadata. The splitter's chunks are documents too. */
  datatype Document = Document(pageContent: string, metadata: map<string, string>)

  /** An uploaded file: its name and its bytes (`getvalue()`). */
  datatype UploadedFile = UploadedFile(name: string, content: seq<byte>)

  /** A Python exception: its class name and message. */
  datatype Exception = Exception(name: string, message: string)

  /** What `get_response` returns: the generated text and the documents it was grounded on. */
  datatype Answer = Answer(text: string, sources: seq<Document>)

  /** A document loader run on a temporary file: its path and the bytes it holds. */
  type Loader = (string, seq<byte>) -> Result<seq<Document>, Exception>

  /** The two loaders `process_files` dispatches to. */
  datatype Loaders = Loaders(pdf: Loader, text: Loader)

  /** `RecursiveCharacterTextSplitter(chunk_size, chunk_overlap).split_documents`. */
  type Splitter = (nat, nat, seq<Document>) -> seq<Document>

  /** The retriever over the store's documents: documents, `k`, query. */
  type Retriever = (seq<Document>, nat, string) -> Result<seq<Document>, Exception>

  /** The chat model: model name, temperature, prompt. */
  type ChatModel = (string, real, string) -> Result<string, Exception>

  // ---------------------------------------------------------------------------
  // Configuration the constructor and the methods fix
  // ---------------------------------------------------------------------------

  const ChunkSize: nat := 1000
  const ChunkOverlap: nat := 200
  const RetrieverK: nat := 5
  const PersistDirectory := "chroma_db"
  const EmbeddingModel := "all-MiniLM-L6-v2"
  const ModelName := "gemini-2.5-flash"
  const Temperature: real := 0.3
  const ApiKeyVariable := "GOOGLE_API_KEY"
  const MissingKey := Exception("ValueError", "API Key is required")
  const NoDocumentsMessage := "No documents to process."

  // ---------------------------------------------------------------------------
  // process_files, as a specification
  // ---------------------------------------------------------------------------

  /** The temporary file's suffix: "." and the part of the name after its last ".". */
  function TempSuffix(name: string): string
  {
    "." + LastPiece(name, '.')
  }

  /**
   * The suffix is "." followed by the longest dot-free tail of the name; a
   * name without a dot gives "." + name.
   */
  lemma TempSuffixIsExtension(name: string)
    ensures var ext := TempSuffix(name)[1..];
      && TempSuffix(name) == "." + ext
      && '.' !in ext
      && EndsWith(name, ext)
      && (|ext| < |name| ==> name[|name| - |ext| - 1] == '.')
    ensures '.' !in name ==> TempSuffix(name) == "." + name
  {
    LastPieceIsMaximalSuffix(name, '.');
    if '.' !in name {
      LastPieceWithoutSeparator(name, '.');
    }
  }

  /** The loader a file name selects. */
  datatype Kind = Pdf | Txt | Unsupported

  /** `name.endswith(".pdf")`, else `name.endswith(".txt")`: case-sensitive, checked in that order. */
  function KindOf(name: string): Kind
  {
    if EndsWith(name, ".pdf") then Pdf else if EndsWith(name, ".txt") then Txt else Unsupported
  }

  /** The dispatch looks at the last four characters only, and exactly. */
  lemma KindOfExtension(stem: string)
    ensures KindOf(stem + ".pdf") == Pdf
    ensures KindOf(stem + ".txt") == Txt
    ensures KindOf(stem + ".PDF") == Unsupported && KindOf(stem + ".TXT") == Unsupported
    ensures KindOf(stem + ".pdf.txt") == Txt && KindOf(stem + ".txt.pdf") == Pdf
  {
  }

  /** The temporary file for the `i`-th upload: a fresh stem chosen by the OS, then the suffix. */
  function TempPath(stem: nat -> string, i: nat, name: string): (p: string)
    ensures EndsWith(p, TempSuffix(name))
  {
    var suffix := TempSuffix(name);
    assert (stem(i) + suffix)[|stem(i)|..] == suffix;
    stem(i) + suffix
  }

  /** What loading the `i`-th upload yields: its loader's result, or no documents for another extension. */
  function FileLoad(files: seq<UploadedFile>, i: nat, stem: nat -> string, loaders: Loaders): Result<seq<Document>, Exception>
    requires i < |files|
  {
    var f := files[i];
    var path := TempPath(stem, i, f.name);
    match KindOf(f.name)
    case Pdf => loaders.pdf(path, f.content)
    case Txt => loaders.text(path, f.content)
    case Unsupported => Success([])
  }

  /**
   * The documents collected by the loop over `files`, or the exception that
   * ended it: each file's documents are appended after those of the files
   * before it, and the first loader that raises stops the loop.
   */
  function LoadAll(files: seq<UploadedFile>, stem: nat -> string, loaders: Loaders): Result<seq<Document>, Exception>
    decreases |files|
  {
    if |files| == 0 then Success([])
    else
      var n := |files| - 1;
      match LoadAll(files[..n], stem, loaders)
      case Failure(e) => Failure(e)
      case Success(docs) =>
        match FileLoad(files, n, stem, loaders)
        case Failure(e) => Failure(e)
        case Success(more) => Success(docs + more)
  }

  lemma FileLoadPrefix(files: seq<UploadedFile>, n: nat, i: nat, stem: nat -> string, loaders: Loaders)
    requires i < n <= |files|
    ensures FileLoad(files[..n], i, stem, loaders) == FileLoad(files, i, stem, loaders)
  {
  }

  /**
   * The loop fails exactly when some file's loader raises, and then it
   * propagates the exception of the first such file, every file before it
   * having loaded.
   */
  lemma {:induction false} LoadAllFailsAtFirstError(files: seq<UploadedFile>, stem: nat -> string, loaders: Loaders)
    ensures LoadAll(files, stem, loaders).Failure?
            <==> exists j :: 0 <= j < |files| && FileLoad(files, j, stem, loaders).Failure?
    ensures LoadAll(files, stem, loaders).Failure? ==>
            exists j :: 0 <= j < |files| && FileLoad(files, j, stem, loaders).Failure?
              && LoadAll(files, stem, loaders).error == FileLoad(files, j, stem, loaders).error
              && forall i :: 0 <= i < j ==> FileLoad(files, i, stem, loaders).Success?
    decreases |files|
  {
    if |files| > 0 {
      var n := |files| - 1;
      var init := files[..n];
      LoadAllFailsAtFirstError(init, stem, loaders);
      forall i | 0 <= i < n
        ensures FileLoad(init, i, stem, loaders) == FileLoad(files, i, stem, loaders)
      {
        FileLoadPrefix(files, n, i, stem, loaders);
      }
      if LoadAll(init, stem, loaders).Failure? {
        var j :| 0 <= j < n && FileLoad(init, j, stem, loaders).Failure?
                 && LoadAll(init, stem, loaders).error == FileLoad(init, j, stem, loaders).error
                 && forall i :: 0 <= i < j ==> FileLoad(init, i, stem, loaders).Success?;
        assert FileLoad(files, j, stem, loaders).Failure?;
      } else if FileLoad(files, n, stem, loaders).Failure? {
        assert forall i :: 0 <= i < n ==> FileLoad(files, i, stem, loaders).Success?;
      } else {
        forall j | 0 <= j < |files|
          ensures FileLoad(files, j, stem, loaders).Success?
        {
          if j < n {
            assert FileLoad(init, j, stem, loaders).Success?;
          }
        }
      }
    }
  }

  /** Once a prefix of the uploads has failed, the whole loop fails with the same exception. */
  lemma {:induction false} LoadAllFailureExtends(files: seq<UploadedFile>, k: nat, stem: nat -> string, loaders: Loaders)
    requires k <= |files|
    requires LoadAll(files[..k], stem, loaders).Failure?
    ensures LoadAll(files, stem, loaders) == LoadAll(files[..k], stem, loaders)
    decreases |files| - k
  {
    if k < |files| {
      var n := |files| - 1;
      assert files[..n][..k] == files[..k];
      LoadAllFailureExtends(files[..n], k, stem, loaders);
      assert files[..|files|] == files;
    } else {
      assert files[..k] == files;
    }
  }

  /** The documents of the `i`-th upload, or none if its loader raised. */
  function FileDocs(files: seq<UploadedFile>, i: nat, stem: nat -> string, loaders: Loaders): seq<Document>
    requires i < |files|
  {
    match FileLoad(files, i, stem, loaders)
    case Success(d) => d
    case Failure(_) => []
  }

  /** The concatenation of a list of document lists, front to back. */
  function Concat(parts: seq<seq<Document>>): seq<Document>
  {
    if |parts| == 0 then [] else parts[0] + Concat(parts[1..])
  }

  lemma {:induction false} ConcatSnoc(parts: seq<seq<Document>>, last: seq<Document>)
    ensures Concat(parts + [last]) == Concat(parts) + last
    decreases |parts|
  {
    if |parts| > 0 {
      assert (parts + [last])[1..] == parts[1..] + [last];
      ConcatSnoc(parts[1..], last);
    } else {
      assert Concat([last]) == last + Concat([]);
    }
  }

  /** The documents of each upload, in upload order. */
  function PerFile(files: seq<UploadedFile>, stem: nat -> string, loaders: Loaders): seq<seq<Document>>
  {
    seq(|files|, i requires 0 <= i < |files| => FileDocs(files, i, stem, loaders))
  }

  /**
   * When no loader raises, the documents are those of the first upload, then
   * those of the second, and so on: upload order is kept.
   */
  lemma {:induction false} LoadAllInUploadOrder(files: seq<UploadedFile>, stem: nat -> string, loaders: Loaders)
    requires LoadAll(files, stem, loaders).Success?
    ensures LoadAll(files, stem, loaders).value == Concat(PerFile(files, stem, loaders))
    decreases |files|
  {
    if |files| > 0 {
      var n := |files| - 1;
      var init := files[..n];
      LoadAllInUploadOrder(init, stem, loaders);
      forall i | 0 <= i < n
        ensures FileDocs(init, i, stem, loaders) == FileDocs(files, i, stem, loaders)
      {
        FileLoadPrefix(files, n, i, stem, loaders);
      }
      assert LoadAll(files, stem, loaders).value == LoadAll(init, stem, loaders).value + FileDocs(files, n, stem, loaders);
      assert PerFile(files, stem, loaders) == PerFile(init, stem, loaders) + [FileDocs(files, n, stem, loaders)];
      ConcatSnoc(PerFile(init, stem, loaders), FileDocs(files, n, stem, loaders));
      assert Concat(PerFile(init, stem, loaders)) == LoadAll(init, stem, loaders).value;
    } else {
      assert PerFile(files, stem, loaders) == [];
    }
  }

  /** Uploads none of which ends in ".pdf" or ".txt" yield no documents (and raise nothing). */
  lemma {:induction false} UnsupportedFilesYieldNothing(files: seq<UploadedFile>, stem: nat -> string, loaders: Loaders)
    requires forall i :: 0 <= i < |files| ==> KindOf(files[i].name) == Unsupported
    ensures LoadAll(files, stem, loaders) == Success([])
    decreases |files|
  {
    if |files| > 0 {
      var n := |files| - 1;
      assert forall i :: 0 <= i < n ==> files[..n][i] == files[i];
      UnsupportedFilesYieldNothing(files[..n], stem, loaders);
      assert FileLoad(files, n, stem, loaders) == Success([]);
      var none: seq<Document> := [];
      assert none + none == none;
    }
  }

  /** The success message: the number of chunks stored and of files uploaded. */
  function Summary(chunks: nat, files: nat): string
  {
    SummaryHead + NatToString(chunks) + SummaryMiddle + NatToString(files) + SummaryTail
  }

  /** A success message cannot be mistaken for the "nothing to process" message. */
  lemma SummaryIsNotNoDocuments(chunks: nat, files: nat)
    ensures Summary(chunks, files) != NoDocumentsMessage
  {
  }

  const SummaryHead := "Processed and saved "
  const SummaryMiddle := " chunks from "
  const SummaryTail := " files to persistent storage."

  lemma SummaryParts(chunks: nat, files: nat)
    ensures Summary(chunks, files)
            == SummaryHead + (NatToString(chunks) + (SummaryMiddle + (NatToString(files) + SummaryTail)))
  {
  }

  lemma CancelPrefix(h: string, x: string, y: string)
    requires h + x == h + y
    ensures x == y
  {
    assert x == (h + x)[|h|..];
    assert y == (h + y)[|h|..];
  }

  /** The success message determines both counts. */
  lemma SummaryInjective(c1: nat, f1: nat, c2: nat, f2: nat)
    requires Summary(c1, f1) == Summary(c2, f2)
    ensures c1 == c2 && f1 == f2
  {
    var a1, b1 := NatToString(c1), NatToString(f1);
    var a2, b2 := NatToString(c2), NatToString(f2);
    NatToStringRoundTrip(c1);
    NatToStringRoundTrip(f1);
    NatToStringRoundTrip(c2);
    NatToStringRoundTrip(f2);
    SummaryParts(c1, f1);
    SummaryParts(c2, f2);
    var x1, x2 := SummaryMiddle + (b1 + SummaryTail), SummaryMiddle + (b2 + SummaryTail);
    CancelPrefix(SummaryHead, a1 + x1, a2 + x2);
    assert x1[0] == ' ' && x2[0] == ' ';
    DigitRunUnique(a1, x1, a2, x2);
    CancelPrefix(SummaryMiddle, b1 + SummaryTail, b2 + SummaryTail);
    assert SummaryTail[0] == ' ';
    DigitRunUnique(b1, SummaryTail, b2, SummaryTail);
    NatToStringInjective(c1, c2);
    NatToStringInjective(f1, f2);
  }

  /** What one `process_files` call returns (or raises) and the chunks it adds to the store. */
  datatype Ingest = Ingest(result: Result<string, Exception>, added: seq<Document>)

  /** `process_files(files)`, with the temporary-file stems, loaders and splitter given. */
  function Process(files: seq<UploadedFile>, stem: nat -> string, loaders: Loaders, split: Splitter): Ingest
  {
    match LoadAll(files, stem, loaders)
    case Failure(e) => Ingest(Failure(e), [])
    case Success(docs) =>
      if |docs| == 0 then Ingest(Success(NoDocumentsMessage), [])
      else
        var chunks := split(ChunkSize, ChunkOverlap, docs);
        Ingest(Success(Summary(|chunks|, |files|)), chunks)
  }

  /**
   * All or nothing: the call raises exactly when some loader raises, it then
   * raises the first file's exception, and nothing is added to the store.
   */
  lemma ProcessAllOrNothing(files: seq<UploadedFile>, stem: nat -> string, loaders: Loaders, split: Splitter)
    ensures var p := Process(files, stem, loaders, split);
      && (p.result.Failure? <==> exists j :: 0 <= j < |files| && FileLoad(files, j, stem, loaders).Failure?)
      && (p.result.Failure? ==> p.added == [] && p.result.error == LoadAll(files, stem, loaders).error)
  {
    LoadAllFailsAtFirstError(files, stem, loaders);
  }

  /**
   * The call returns "No documents to process." exactly when the loaders
   * succeed without producing a document; it then adds nothing.
   */
  lemma ProcessNothingToProcess(files: seq<UploadedFile>, stem: nat -> string, loaders: Loaders, split: Splitter)
    ensures var p := Process(files, stem, loaders, split);
      (p.result == Success(NoDocumentsMessage) <==> LoadAll(files, stem, loaders) == Success([]))
      && (p.result == Success(NoDocumentsMessage) ==> p.added == [])
  {
  }

  /** A batch of uploads none of which is a PDF or a text file gives the fixed message and stores nothing. */
  lemma ProcessUnsupportedOnly(files: seq<UploadedFile>, stem: nat -> string, loaders: Loaders, split: Splitter)
    requires forall i :: 0 <= i < |files| ==> KindOf(files[i].name) == Unsupported
    ensures Process(files, stem, loaders, split) == Ingest(Success(NoDocumentsMessage), [])
  {
    UnsupportedFilesYieldNothing(files, stem, loaders);
  }

  /**
   * When documents were loaded, one split of all of them (in upload order,
   * with sizes 1000 and 200) is added, and the message counts those chunks
   * and every uploaded file, unsupported ones included.
   */
  lemma ProcessStoresOneSplit(files: seq<UploadedFile>, stem: nat -> string, loaders: Loaders, split: Splitter)
    requires LoadAll(files, stem, loaders).Success? && LoadAll(files, stem, loaders).value != []
    ensures var docs := Concat(PerFile(files, stem, loaders));
      var p := Process(files, stem, loaders, split);
      && p.added == split(1000, 200, docs)
      && p.result == Success(Summary(|p.added|, |files|))
  {
    LoadAllInUploadOrder(files, stem, loaders);
  }

  // ---------------------------------------------------------------------------
  // get_response, as a specification
  // ---------------------------------------------------------------------------

  /** A piece of a prompt template: literal text or a `{name}` placeholder. */
  datatype Segment = Literal(text: string) | Placeholder(name: string)

  /** The template as written, with each placeholder as `{name}`. */
  function Render(template: seq<Segment>): string
  {
    if |template| == 0 then ""
    else
      (match template[0]
       case Literal(t) => t
       case Placeholder(n) => "{" + n + "}")
      + Render(template[1..])
  }

  /** The names of the template's placeholders. */
  function Names(template: seq<Segment>): set<string>
  {
    if |template| == 0 then {}
    else (if template[0].Placeholder? then {template[0].name} else {}) + Names(template[1..])
  }

  /**
   * `PromptTemplate.format`: each placeholder replaced by its value, inserted
   * verbatim (a value is not searched for placeholders again); a placeholder
   * without a value raises `KeyError`.
   */
  function Format(template: seq<Segment>, values: map<string, string>): Result<string, Exception>
  {
    if |template| == 0 then Success("")
    else
      var first: Result<string, Exception> :=
        match template[0]
        case Literal(t) => Success(t)
        case Placeholder(n) => if n in values then Success(values[n]) else Failure(Exception("KeyError", n));
      match first
      case Failure(e) => Failure(e)
      case Success(s) =>
        match Format(template[1..], values)
        case Failure(e) => Failure(e)
        case Success(rest) => Success(s + rest)
  }

  /** Formatting succeeds exactly when every placeholder has a value. */
  lemma {:induction false} FormatDefined(template: seq<Segment>, values: map<string, string>)
    ensures Format(template, values).Success? <==> Names(template) <= values.Keys
    decreases |template|
  {
    if |template| > 0 {
      FormatDefined(template[1..], values);
    }
  }

  /** Giving each placeholder its own `{name}` as value reproduces the template text. */
  lemma {:induction false} FormatWithOwnNames(template: seq<Segment>, values: map<string, string>)
    requires forall n :: n in Names(template) ==> n in values && values[n] == "{" + n + "}"
    ensures Format(template, values) == Success(Render(template))
    decreases |template|
  {
    if |template| > 0 {
      FormatWithOwnNames(template[1..], values);
    }
  }

  const PromptIntro := "Use the following pieces of context to answer the question at the end. \nif you don't know the answer, just say that you don't know, don't try to make up an answer.\n\nContext:\n"
  const PromptMiddle := "\n\nQuestion: "
  const PromptEnd := "\nAnswer:"

  /** The fixed prompt of `get_response`, with its `{context}` and `{question}` placeholders. */
  const PromptTemplate: seq<Segment> :=
    [Literal(PromptIntro), Placeholder("context"), Literal(PromptMiddle), Placeholder("question"), Literal(PromptEnd)]

  /** The template's text is the one the engine writes out. */
  lemma PromptTemplateText()
    ensures Render(PromptTemplate) == PromptIntro + "{context}" + PromptMiddle + "{question}" + PromptEnd
    ensures Names(PromptTemplate) == {"context", "question"}
  {
    var t := PromptTemplate;
    assert Render(t[4..]) == PromptEnd + Render(t[5..]);
    assert Render(t[3..]) == "{question}" + Render(t[4..]);
    assert Render(t[2..]) == PromptMiddle + Render(t[3..]);
    assert Render(t[1..]) == "{context}" + Render(t[2..]);
    assert Render(t) == PromptIntro + Render(t[1..]);
    assert Names(t[3..]) == {"question"} + Names(t[4..]);
    assert Names(t[1..]) == {"context"} + Names(t[2..]);
  }

  /** The prompt for one question over one context. */
  function Prompt(context: string, question: string): string
  {
    var values := map["context" := context, "question" := question];
    PromptTemplateText();
    FormatDefined(PromptTemplate, values);
    Format(PromptTemplate, values).value
  }

  /**
   * The prompt is the fixed text with the context and the question inserted
   * verbatim, whatever braces they contain; so both can be read back from it.
   */
  lemma PromptShape(context: string, question: string)
    ensures Prompt(context, question) == PromptIntro + context + PromptMiddle + question + PromptEnd
    ensures var p, i := Prompt(context, question), |PromptIntro|;
      && p[i..i + |context|] == context
      && p[i + |context| + |PromptMiddle|..|p| - |PromptEnd|] == question
  {
    var values := map["context" := context, "question" := question];
    var t := PromptTemplate;
    assert Format(t[5..], values) == Success("");
    assert Format(t[4..], values) == Success(PromptEnd + "");
    assert Format(t[3..], values) == Success(question + (PromptEnd + ""));
    assert Format(t[2..], values) == Success(PromptMiddle + (question + (PromptEnd + "")));
    assert Format(t[1..], values) == Success(context + (PromptMiddle + (question + (PromptEnd + ""))));
    assert Format(t, values) == Success(PromptIntro + (context + (PromptMiddle + (question + (PromptEnd + "")))));
    var p := Prompt(context, question);
    assert p == PromptIntro + context + PromptMiddle + question + PromptEnd;
  }

  /** The texts of the documents, in order. */
  function PageContents(docs: seq<Document>): seq<string>
  {
    seq(|docs|, k requires 0 <= k < |docs| => docs[k].pageContent)
  }

  /** `"\n\n".join([doc.page_content for doc in docs])`. */
  function ContextText(docs: seq<Document>): string
  {
    Join(PageContents(docs), "\n\n")
  }

  /**
   * The context holds each retrieved document's text whole, in retrieval
   * order, with a blank line between neighbours and nothing after the last.
   */
  lemma ContextInRetrievalOrder(docs: seq<Document>, k: nat)
    requires k < |docs|
    ensures var c, o, t := ContextText(docs), Offset(PageContents(docs), "\n\n", k), docs[k].pageContent;
      && o + |t| <= |c|
      && c[o..o + |t|] == t
      && (k + 1 < |docs| ==> o + |t| + 2 <= |c| && c[o + |t|..o + |t| + 2] == "\n\n")
      && (k + 1 == |docs| ==> o + |t| == |c|)
  {
    JoinAt(PageContents(docs), "\n\n", k);
  }

  /** Nothing retrieved: the context is empty and the model still gets the prompt. */
  lemma EmptyRetrievalPrompt(question: string)
    ensures Prompt(ContextText([]), question) == PromptIntro + PromptMiddle + question + PromptEnd
  {
    PromptShape("", question);
  }

  // ---------------------------------------------------------------------------
  // The engine object
  // ---------------------------------------------------------------------------

  class RAGChatbot {
    const apiKey: string
    const persistDirectory: string
    const embeddingModel: string
    const retrieverK: nat
    const modelName: string
    const temperature: real

    /** The Chroma collection: every chunk added so far, in the order added. */
    var store: seq<Document>

    /** Temporary upload files that exist and have not been removed yet. */
    ghost var liveTemps: set<string>

    ghost predicate Valid()
      reads this
    {
      && apiKey != ""
      && persistDirectory == PersistDirectory
      && embeddingModel == EmbeddingModel
      && retrieverK == RetrieverK
      && modelName == ModelName
      && temperature == Temperature
      && liveTemps == {}
    }

    /** The initialisation after the key check: the persistent store as it is on disk, a retriever with k = 5, the model. */
    constructor Init(key: string, persisted: seq<Document>)
      requires key != ""
      ensures Valid()
      ensures apiKey == key && store == persisted
    {
      apiKey := key;
      persistDirectory := PersistDirectory;
      embeddingModel := EmbeddingModel;
      retrieverK := RetrieverK;
      modelName := ModelName;
      temperature := Temperature;
      store := persisted;
      liveTemps := {};
    }

    /**
     * `RAGChatbot(api_key)`: a missing or empty key raises `ValueError` before
     * anything else happens; otherwise the key is exported as GOOGLE_API_KEY
     * and the store opened with what is persisted.
     */
    static method New(key: Option<string>, env: map<string, string>, persisted: seq<Document>)
      returns (r: Result<RAGChatbot, Exception>, env': map<string, string>)
      ensures r.Failure? <==> !Truthy(key)
      ensures r.Failure? ==> r.error == MissingKey && env' == env
      ensures r.Success? ==>
        && fresh(r.value) && r.value.Valid()
        && r.value.apiKey == key.value && r.value.store == persisted
        && env' == env[ApiKeyVariable := key.value]
    {
      if !Truthy(key) {
        return Failure(MissingKey), env;
      }
      env' := env[ApiKeyVariable := key.value];
      var bot := new RAGChatbot.Init(key.value, persisted);
      r := Success(bot);
    }

    /**
     * `process_files(files)`. Each upload is written to a temporary file named
     * `stem(i)` + its suffix, loaded according to its extension and removed
     * again, whether its loader returned or raised. The store changes only
     * after the loop, by one append of one split.
     */
    method ProcessFiles(files: seq<UploadedFile>, stem: nat -> string, loaders: Loaders, split: Splitter)
      returns (r: Result<string, Exception>)
      requires Valid()
      modifies this`store, this`liveTemps
      ensures Valid()
      ensures r == Process(files, stem, loaders, split).result
      ensures store == old(store) + Process(files, stem, loaders, split).added
    {
      var documents: seq<Document> := [];
      var i := 0;
      while i < |files|
        invariant 0 <= i <= |files|
        invariant liveTemps == {}
        invariant store == old(store)
        invariant LoadAll(files[..i], stem, loaders) == Success(documents)
      {
        var file := files[i];
        var path := TempPath(stem, i, file.name);
        liveTemps := liveTemps + {path};
        var loaded: Result<seq<Document>, Exception>;
        if EndsWith(file.name, ".pdf") {
          loaded := loaders.pdf(path, file.content);
        } else if EndsWith(file.name, ".txt") {
          loaded := loaders.text(path, file.content);
        } else {
          loaded := Success([]);
        }
        liveTemps := liveTemps - {path};
        assert files[..i + 1][..i] == files[..i];
        assert loaded == FileLoad(files[..i + 1], i, stem, loaders);
        if loaded.Failure? {
          LoadAllFailureExtends(files, i + 1, stem, loaders);
          return Failure(loaded.error);
        }
        documents := documents + loaded.value;
        i := i + 1;
      }
      assert files[..i] == files;
      if |documents| == 0 {
        return Success(NoDocumentsMessage);
      }
      var chunks := split(ChunkSize, ChunkOverlap, documents);
      store := store + chunks;
      r := Success(Summary(|chunks|, |files|));
    }

    /**
     * `get_response(query)`: retrieve `k` = 5 documents from the store, join
     * their texts into the context, format the prompt and ask the model once.
     * Returns the model's text with exactly the retrieved documents, or the
     * exception the retriever or the model raised.
     */
    method GetResponse(query: string, retrieve: Retriever, model: ChatModel) returns (r: Result<Answer, Exception>)
      requires Valid()
      ensures retrieve(store, RetrieverK, query).Failure? ==> r == Failure(retrieve(store, RetrieverK, query).error)
      ensures retrieve(store, RetrieverK, query).Success? ==>
        var docs := retrieve(store, RetrieverK, query).value;
        var reply := model(ModelName, Temperature, PromptIntro + ContextText(docs) + PromptMiddle + query + PromptEnd);
        && (r.Success? <==> reply.Success?)
        && (r.Success? ==> r.value == Answer(reply.value, docs))
        && (r.Failure? ==> r.error == reply.error)
    {
      var retrieved := retrieve(store, retrieverK, query);
      if retrieved.Failure? {
        return Failure(retrieved.error);
      }
      var docs := retrieved.value;
      var context := ContextText(docs);
      var prompt := Prompt(context, query);
      PromptShape(context, query);
      var reply := model(modelName, temperature, prompt);
      if reply.Failure? {
        return Failure(reply.error);
      }
      r := Success(Answer(reply.value, docs));
    }
  }
}
