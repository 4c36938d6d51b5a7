# RAG chatbot core: a verified Dafny model

This project models the part of the document-question-answering chatbot that
is its own code. Everything else is delegated to LangChain, HuggingFace,
Chroma and Gemini.

- `RAGChatbot` (`rag_engine.py`):
  - the constructor's API-key check;
  - the ingestion loop `process_files`: temporary-file suffix, dispatch on
    the extension, documents collected in upload order, the temporary file
    removed on every path, the "nothing to process" case, and one split
    followed by one append to the store;
  - `get_response`: the retrieved texts joined with blank lines and
    substituted into the fixed prompt.
- Admin credential check (`auth.py`): `hash_password` and `check_credentials`.

Every library collaborator is a function-valued parameter:

- the PDF and text loaders, the retriever and the chat model return a
  `Result`, so each of them may raise;
- the splitter is a total function of `(chunk_size, chunk_overlap, documents)`;
- SHA-256 is a function from bytes to a 32-byte digest about which nothing
  else is assumed;
- the OS's choice of temporary file name is a function `stem` of the upload's
  position;
- the environment variables are `Option<string>` parameters.

The object's state is a `class RAGChatbot`. Its `store: seq<Document>` is the
Chroma collection, which the model only appends to. Its ghost
`liveTemps: set<string>` holds the temporary files that exist. `Valid()` keeps
`liveTemps` empty between calls. `ProcessFiles` is a loop proved against the
specification function `Process`. The lemmas about `Process` state the
properties of the ingestion: all or nothing, the first error propagated,
upload order, the exact messages and a single split.

Files:

- `wrappers.dfy`: `Option` and `Result`.
- `text.dfy`: Python's `str.split` with one separator character, `str.join`,
  `str.endswith` and `str(n)`, with round-trip lemmas.
- `encoding.dfy`: `str.encode()` (UTF-8) and `hexdigest()` (lower-case hex),
  each with its decoder and round trips.
- `auth.dfy`: `hash_password` and `check_credentials`.
- `rag_engine.dfy`: the engine.

Four points about what the code does, which the model follows:

- One loader that raises aborts the whole batch. The exception propagates and
  nothing is stored. The earlier files are not ingested independently.
- `get_response` never checks whether the store is empty. The model is asked
  even when nothing was retrieved (`EmptyRetrievalPrompt`).
- Errors are whatever the libraries raise. They are not a fixed set of
  exception kinds.
- The only failure the constructor detects is a missing or empty key.

## Model

| member | source | states |
|---|---|---|
| Auth.CheckCredentials | auth.py:12-22 | the definition of `check_credentials`: `username == AdminUsername(..) && HashPassword(..) == ReferenceHash(..)`; its properties are in `WrongUsernameRejected`, `DefaultCredentialsAccepted`, `UnsetHashComparesWithDefault`, `ConfiguredHashDecides`, `ConfiguredDigestAccepts`, `WellFormedHashAccepts` and `MalformedHashRejectsAll` |
| Auth.AdminUsername | auth.py:15 | the definition of `os.getenv("ADMIN_USERNAME", "admin")`: "admin" when absent, the value itself otherwise; used by `WrongUsernameRejected` and `DefaultCredentialsAccepted` |
| Auth.ReferenceHash | auth.py:16-20 | the definition of the reference hash: the configured hash when truthy, otherwise `HashPassword("admin123")`; its cases are `UnsetHashComparesWithDefault` and `ConfiguredHashDecides` |
| RagEngine.Process | rag_engine.py:43-71 | the definition of `process_files` as a value: the loop's exception, or the message and the chunks to append; `RAGChatbot.ProcessFiles` is proved equal to it, and its properties are in `ProcessAllOrNothing`, `ProcessNothingToProcess`, `ProcessUnsupportedOnly` and `ProcessStoresOneSplit` |
| RagEngine.LoadAll | rag_engine.py:44-59 | the definition of the loop over the uploads: documents extended file by file, stopped by the first loader that raises; its properties are in `LoadAllFailsAtFirstError`, `LoadAllFailureExtends`, `LoadAllInUploadOrder` and `UnsupportedFilesYieldNothing` |
| RagEngine.FileLoad | rag_engine.py:47-57 | the definition of one iteration: the selected loader on the upload's temporary path and bytes, or no documents for another extension; used by the `LoadAll` lemmas |
| RagEngine.KindOf | rag_engine.py:52-57 | the definition of the dispatch: `endswith(".pdf")`, else `endswith(".txt")`, else neither; its properties are in `KindOfExtension` |
| RagEngine.TempSuffix | rag_engine.py:47 | the definition of the suffix `f".{name.split('.')[-1]}"`; its properties are in `TempSuffixIsExtension` |
| RagEngine.Summary | rag_engine.py:71 | the definition of the success message; its properties are in `SummaryIsNotNoDocuments` and `SummaryInjective` |
| RagEngine.ContextText | rag_engine.py:79 | the definition of `"\n\n".join([doc.page_content for doc in docs])`; its properties are in `ContextInRetrievalOrder` and `EmptyRetrievalPrompt` |
| RagEngine.Format | rag_engine.py:90-97 | the definition of template substitution, with a `KeyError` for a placeholder without a value; its properties are in `FormatDefined` and `FormatWithOwnNames` |
| RagEngine.Prompt | rag_engine.py:81-97 | the definition of the prompt: the fixed template formatted with context and question; its properties are in `PromptTemplateText`, `PromptShape` and `EmptyRetrievalPrompt` |
| Encoding.Utf8Encode | auth.py:10 | the definition of `password.encode()` as UTF-8, character by character; its properties are in `EncodeChar`, `Utf8RoundTrip` and `Utf8Injective` |
| Text.LastPiece | rag_engine.py:47 | the definition of `name.split('.')[-1]`; its properties are in `LastPieceIsMaximalSuffix` and `LastPieceWithoutSeparator` |
| Text.Join | rag_engine.py:79 | the definition of `sep.join(parts)`; its properties are in `JoinAt`, `JoinSplit` and `SplitJoin` |
| Text.NatToString | rag_engine.py:71 | the definition of `str(n)` for a count; its properties are in `NatToStringRoundTrip` and `NatToStringInjective` |
| Text.EndsWith | rag_engine.py:52-55 | the definition of `str.endswith`: an exact, case-sensitive comparison of the tail; used by `KindOfExtension` and `TempSuffixIsExtension` |
| Text.LastPieceIsMaximalSuffix | rag_engine.py:47 | `name.split('.')[-1]` is the longest dot-free tail of the name, and the character before it, if there is one, is '.' |
| Text.LastPieceWithoutSeparator | rag_engine.py:47 | a name without a '.' is its own last piece |
| Text.JoinSplit | rag_engine.py:47 | joining the pieces of `split('.')` with '.' gives the name back |
| Text.SplitJoin | rag_engine.py:47 | splitting a '.'-join of dot-free pieces gives those pieces back |
| Text.Split | rag_engine.py:47 | `split` returns at least one piece, no piece holds the separator, and there are two or more pieces exactly when the separator occurs |
| RagEngine.TempSuffixIsExtension | rag_engine.py:47 | the temp suffix is "." plus the longest dot-free tail of the name; with no dot it is "." + name |
| RagEngine.TempPath | rag_engine.py:47-49 | every temporary path ends with the suffix built from the upload's name |
| RagEngine.KindOfExtension | rag_engine.py:52-57 | ".pdf" selects the PDF loader and ".txt" the text loader; ".PDF" and ".TXT" select neither (case-sensitive); only the final extension counts |
| RagEngine.LoadAllFailsAtFirstError | rag_engine.py:45-59 | the loop raises exactly when some loader raises; it raises the first failing file's exception, and every earlier file had loaded (temporary-file calls assumed to succeed, see Left out) |
| RagEngine.LoadAllFailureExtends | rag_engine.py:51-59 | once a loader raises, later files do not change the outcome: the loop ends with that exception |
| RagEngine.LoadAllInUploadOrder | rag_engine.py:44-57 | the collected documents are each file's documents, concatenated in upload order |
| RagEngine.UnsupportedFilesYieldNothing | rag_engine.py:52-57 | uploads with neither extension contribute no documents and raise nothing |
| RagEngine.ProcessAllOrNothing | rag_engine.py:51-69 | `process_files` raises exactly when some loader raises; it then adds nothing to the store (temporary-file calls assumed to succeed, see Left out) |
| RagEngine.ProcessNothingToProcess | rag_engine.py:61-62 | the result is "No documents to process." exactly when loading succeeded with no documents; nothing is then stored |
| RagEngine.ProcessUnsupportedOnly | rag_engine.py:52-62 | a batch of only unsupported files gives the fixed message and stores nothing |
| RagEngine.ProcessStoresOneSplit | rag_engine.py:65-71 | otherwise exactly `split(1000, 200, documents)` is added, with the documents in upload order; the message counts those chunks and all uploaded files |
| RagEngine.SummaryIsNotNoDocuments | rag_engine.py:61-71 | the success message never equals the "nothing to process" message |
| RagEngine.SummaryInjective | rag_engine.py:71 | the success message determines both the chunk count and the file count |
| Text.NatToStringRoundTrip | rag_engine.py:71 | `str(n)` is a non-empty digit string without a leading zero whose value is n |
| Text.NatToStringInjective | rag_engine.py:71 | different counts print differently |
| Text.DigitRunUnique | rag_engine.py:71 | a digit run followed by a non-digit is determined by the text |
| RagEngine.RAGChatbot.New | rag_engine.py:14-41 | a missing or empty key raises `ValueError("API Key is required")` and leaves the environment untouched; otherwise the key is exported as GOOGLE_API_KEY and the store holds the persisted documents |
| RagEngine.RAGChatbot.Init | rag_engine.py:25-41 | the fixed configuration: "chroma_db", "all-MiniLM-L6-v2", k = 5, "gemini-2.5-flash", temperature 0.3; no temporary file is live |
| RagEngine.RAGChatbot.ProcessFiles | rag_engine.py:43-71 | the loop returns or raises what `Process` says; the store becomes old store ++ the chunks `Process` adds; no temporary file is left on any path |
| RagEngine.FormatDefined | rag_engine.py:90-97 | formatting a template succeeds exactly when every placeholder has a value |
| RagEngine.FormatWithOwnNames | rag_engine.py:81-92 | giving each placeholder its own `{name}` as value reproduces the template text |
| RagEngine.PromptTemplateText | rag_engine.py:81-92 | the template is the fixed text with one `{context}` and one `{question}` placeholder and no other |
| RagEngine.PromptShape | rag_engine.py:81-97 | the prompt is the fixed text with context and question inserted verbatim; both can be read back from it |
| Text.JoinAt | rag_engine.py:79 | `sep.join(parts)` holds every part whole, in order, at its offset, with `sep` between neighbours |
| RagEngine.ContextInRetrievalOrder | rag_engine.py:79 | the context holds each retrieved document's text in retrieval order, separated by "\n\n" |
| RagEngine.EmptyRetrievalPrompt | rag_engine.py:78-97 | with nothing retrieved the context is empty and the prompt is the fixed text around the question alone; that the model is still called on it is stated by `RAGChatbot.GetResponse` |
| RagEngine.RAGChatbot.GetResponse | rag_engine.py:77-99 | retrieves with k = 5 from the store; the model gets the fixed prompt built from the joined texts and the query; the result holds the model's text and exactly the retrieved documents, or the first exception raised |
| Encoding.EncodeChar | auth.py:10 | UTF-8 of one character is 1 to 4 bytes, one byte exactly for ASCII, and every byte after the first is a continuation byte |
| Encoding.Utf8RoundTrip | auth.py:10 | decoding `password.encode()` gives the password back |
| Encoding.Utf8Injective | auth.py:10 | different passwords have different encodings |
| Encoding.HexOf | auth.py:10 | `hexdigest()` has two lower-case hex digits per byte |
| Encoding.UnhexHexOf | auth.py:10 | reading a hex digest back gives the digest bytes |
| Encoding.HexOfUnhex | auth.py:10 | every lower-case hex string of even length is the hex digest of what it reads back as |
| Encoding.UnhexDefined | auth.py:10 | a string reads back as bytes exactly when it has even length and only lower-case hex digits |
| Encoding.HexOfInjective | auth.py:10 | two digests have the same hex form exactly when they are equal |
| Auth.HashPassword | auth.py:8-10 | `hash_password` always returns 64 lower-case hex digits |
| Auth.HashPasswordComparesDigests | auth.py:8-22 | two hex hashes are equal exactly when the SHA-256 digests are equal |
| Auth.HashPasswordInjective | auth.py:8-10 | unless SHA-256 collides on the two encodings, equal hashes mean equal passwords |
| Auth.WrongUsernameRejected | auth.py:15-22 | a username other than ADMIN_USERNAME ("admin" when absent) is refused whatever the password |
| Auth.DefaultCredentialsAccepted | auth.py:15-22 | with no username set and the hash unset or empty, ("admin", "admin123") is accepted |
| Auth.UnsetHashComparesWithDefault | auth.py:16-22 | with the hash unset or empty, a login succeeds exactly when the username matches and the password's digest equals that of "admin123" |
| Auth.ConfiguredHashDecides | auth.py:16-22 | with a non-empty hash S, the result is `username == user && hash_password(password) == S`, and the digest of "admin123" plays no part |
| Auth.ConfiguredDigestAccepts | auth.py:16-22 | a configured hash written as the hex digest of d accepts exactly the passwords whose digest is d |
| Auth.WellFormedHashAccepts | auth.py:8-22 | a configured hash of 64 lower-case hex digits is the hex digest of the 32 bytes it reads back as, and accepts exactly the passwords with that digest |
| Auth.MalformedHashRejectsAll | auth.py:8-22 | a non-empty configured hash that is not 64 lower-case hex digits refuses every login |

## Left out

- `if not self.retriever` (rag_engine.py:74-75): the constructor always sets the retriever, so the branch cannot be taken.
- The library internals:
  - the splitter's chunking, which the model records only as its arguments 1000 and 200;
  - the HuggingFace embeddings and Chroma's similarity ranking, which are floating-point code inside the libraries;
  - PDF and text parsing;
  - the Gemini call.
  Each is a function-valued parameter.
- The libraries' storage and ranking promises are not assumed. These are chunk sizes, at most k results, and results drawn from the store. The retriever is an arbitrary function of the store's contents, k and the query.
- `add_documents` (rag_engine.py:69) cannot fail in the model. The embedding calls it makes are not modelled.
- `tmp_file.write` (rag_engine.py:48) cannot fail in the model. Because the `try` starts at rag_engine.py:51, a write failure would leave that temporary file behind. The cleanup property covers only the loaders' exceptions.
- RagEngine.RAGChatbot.ProcessFiles assumes that `tempfile.NamedTemporaryFile(...)` (rag_engine.py:47) cannot fail. If it raised, its OSError would propagate before that upload's loader ran. The earlier uploads' temporary files would already have been removed, and nothing would be stored.
- RagEngine.RAGChatbot.ProcessFiles assumes that `os.remove` in the `finally` (rag_engine.py:58-59) cannot fail. If it raised after a loader error, Python would propagate the OSError and drop the loader's exception. `LoadAllFailsAtFirstError` and `ProcessAllOrNothing` then state which exception propagates only for a remove that succeeds. If it raised after a successful load, the whole batch would abort with the OSError and nothing would be stored. The model has no such path.
- RagEngine.RAGChatbot.New assumes that the library constructors at rag_engine.py:25-41 cannot fail: `HuggingFaceEmbeddings`, `Chroma`, `as_retriever` and `ChatGoogleGenerativeAI`. If one raised, its exception would propagate after `os.environ["GOOGLE_API_KEY"]` had already been written at rag_engine.py:19. No object would be returned, yet the environment would be changed. `New` always succeeds for a truthy key.
- The temporary file's name is the parameter `stem` plus the suffix. The model does not check that the OS's name is fresh. The ghost set `liveTemps` tracks only the files created by `ProcessFiles`.
- The file system contents are not modelled, only which temporary paths exist. A loader receives the bytes written to its temporary file.
- `os.environ["GOOGLE_API_KEY"] = api_key` (rag_engine.py:19) is an environment map passed in and returned by `RAGChatbot.New`. `os.getenv` reads are parameters.
- Python strings may hold lone surrogates, on which `str.encode()` raises. Dafny's `char` is a Unicode scalar value, so the model has no such input.
- SHA-256 itself is not specified. Nothing is assumed about the hash beyond its 32-byte output.
- `login_page`, `logout` and the session-state initialisation in `auth.py` are Streamlit UI. `app.py` and `pages/admin.py` are also UI, including the typing animation and reruns.
- `get_document_count` and `clear_all_documents`, called from `pages/admin.py`, are not defined by `RAGChatbot`, so the model has no count or wipe operations.
- The ad-hoc scripts `test_rag.py`, `test_api.py`, `debug_imports.py` and `inspect_langchain.py` print the results of library calls and assert nothing.
- RagEngine.Format models LangChain's f-string substitution for templates already split into literal text and `{name}` placeholders. Parsing the template string and `{{` escapes are inside the library.
