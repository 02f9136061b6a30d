/** Ingestion of PDF documents into the vector index: the company name a document is stored
    under, one vector record per chunk, the rejection of text-less documents, and the tally of a
    whole folder. The text extractor, the sentence encoder and the index's upsert are parameters:
    `extract` maps a file path to its text or an error, `encode` maps the chunks to their
    embeddings or an error, and `upsert` stores records and yields an error if it raises. */
module DocumentProcessor {
  import opened Wrappers
  import opened Text
  import opened Numerals
  import opened PdfNames
  import opened Chunker
  import opened Helpers
  import Settings

  /** What process_and_store_pdf is given: an uploaded file object (it has a name) or a path. */
  datatype PdfSource = Uploaded(file: UploadedFile) | Path(path: string)

  /** The metadata stored with each vector. */
  datatype Metadata = Metadata(company: string, text: string)

  /** One upserted vector: id, embedding and metadata. */
  datatype VectorRecord<E> = VectorRecord(id: string, values: E, metadata: Metadata)

  /** The observable steps of one ingestion, in order. */
  datatype Event<E> =
    | WriteTemp(path: string)
    | Extract(path: string)
    | Encode(texts: seq<string>)
    | Upsert(records: seq<VectorRecord<E>>)
    | RemoveTemp(path: string)

  /** The (success, message) pair process_and_store_pdf returns, with the steps it took. */
  datatype Outcome<E> = Outcome(success: bool, message: string, trace: seq<Event<E>>)

  const NoTextMessage: string := "No text found in PDF"

  /** What Python's IndexError says when chunks[i] runs past the list. */
  const IndexErrorText: string := "list index out of range"

  /** An exception raised by a collaborator, turned into the failure message. */
  function ErrorMessage(error: string): string {
    "Error processing PDF: " + error
  }

  function SuccessMessage(chunkCount: nat, company: string): string {
    "Successfully processed " + NatToString(chunkCount) + " chunks from " + company
  }

  /** POSIX os.path.basename: what follows the last '/'. */
  function Basename(path: string): (b: string)
    ensures |b| <= |path| && b == path[|path| - |b|..]
    ensures forall i :: 0 <= i < |b| ==> b[i] != '/'
    ensures |b| < |path| ==> path[|path| - |b| - 1] == '/'
    decreases |path|
  {
    if path == [] || path[|path| - 1] == '/' then []
    else Basename(path[..|path| - 1]) + [path[|path| - 1]]
  }

  /** The name of the file a document comes from: an upload's own name, or a path's basename. */
  function FileName(source: PdfSource): string {
    if source.Uploaded? then source.file.name else Basename(source.path)
  }

  /** The company a document is stored under: the given name if there is one, else the file's
      name (the basename for a path) with every ".pdf" removed, which is the file name itself
      exactly when that holds no ".pdf". */
  function DeriveCompany(source: PdfSource, companyName: Option<string>): (company: string)
    ensures companyName.Some? ==> company == companyName.value
    ensures companyName.None? ==> |company| <= |FileName(source)|
    ensures companyName.None? ==> (company == FileName(source) <==> !Occurs(FileName(source), Extension))
  {
    if companyName.Some? then companyName.value
    else if source.Uploaded? then CompanyFromFilename(source.file.name)
    else CompanyFromFilename(Basename(source.path))
  }

  /** A name the caller passes is used as it is, even an empty one; otherwise a path's directory
      plays no part and a file "<base>.pdf" is stored under <base>. */
  lemma DefaultCompany(companyName: Option<string>, dir: string, base: string)
    requires forall i :: 0 <= i < |base| ==> base[i] != '/'
    requires !Occurs(base, Extension)
    ensures DeriveCompany(Path(dir + "/" + (base + Extension)), companyName) ==
            if companyName.Some? then companyName.value else base
  {
    NoSlashWithExtension(base);
    BasenameAfterSlash(dir, base + Extension);
    CompanyOfBaseWithExtension(base);
  }

  lemma NoSlashWithExtension(base: string)
    requires forall i :: 0 <= i < |base| ==> base[i] != '/'
    ensures forall i :: 0 <= i < |base + Extension| ==> (base + Extension)[i] != '/'
  {
    assert forall i :: 0 <= i < |Extension| ==> Extension[i] != '/';
  }

  lemma {:induction false} BasenameAfterSlash(dir: string, name: string)
    requires forall i :: 0 <= i < |name| ==> name[i] != '/'
    ensures Basename(dir + "/" + name) == name
    decreases |name|
  {
    var p := dir + "/" + name;
    if name != [] {
      var init := name[..|name| - 1];
      BasenameAfterSlash(dir, init);
      assert p[..|p| - 1] == dir + "/" + init;
      assert init + [name[|name| - 1]] == name;
    }
  }

  /** The id of the i-th vector of a company. */
  function RecordId(company: string, i: nat): string {
    company + "_" + NatToString(i)
  }

  /** In an id, the '_' after the company is the last one: the index's digits hold none. */
  lemma SeparatorIsLast(company: string, i: nat)
    ensures var id := RecordId(company, i);
      id[|company|] == '_' && forall k :: |company| < k < |id| ==> id[k] != '_'
  {
    var id := RecordId(company, i);
    var n := NatToString(i);
    forall k | |company| < k < |id|
      ensures id[k] != '_'
    {
      assert id[k] == n[k - |company| - 1];
    }
  }

  /** No two vectors share an id, within one company or across companies: the digits after the
      last '_' give back the index, and what precedes it the company. */
  lemma RecordIdInjective(c1: string, i: nat, c2: string, j: nat)
    requires RecordId(c1, i) == RecordId(c2, j)
    ensures c1 == c2 && i == j
  {
    var id := RecordId(c1, i);
    SeparatorIsLast(c1, i);
    SeparatorIsLast(c2, j);
    assert |c1| == |c2|;
    var n1, n2 := NatToString(i), NatToString(j);
    assert c1 == id[..|c1|] == c2;
    assert n1 == id[|c1| + 1..] == n2;
    NatToStringInjective(i, j);
  }

  /** The records built from the chunks and their embeddings: record i pairs embedding i with
      chunk i. */
  function Records<E>(company: string, chunks: seq<string>, embeddings: seq<E>): (records: seq<VectorRecord<E>>)
    requires |embeddings| <= |chunks|
    ensures |records| == |embeddings|
  {
    seq(|embeddings|, i requires 0 <= i < |embeddings| =>
      VectorRecord(RecordId(company, i), embeddings[i], Metadata(company, chunks[i])))
  }

  /** Each record carries its index's id, embedding, company and chunk, and the ids differ. */
  lemma RecordsShape<E>(company: string, chunks: seq<string>, embeddings: seq<E>)
    requires |embeddings| <= |chunks|
    ensures var records := Records(company, chunks, embeddings);
      (forall i :: 0 <= i < |records| ==>
        records[i].id == company + "_" + NatToString(i) && records[i].values == embeddings[i] &&
        records[i].metadata.company == company && records[i].metadata.text == chunks[i]) &&
      (forall i, j :: 0 <= i < j < |records| ==> records[i].id != records[j].id)
  {
    var records := Records(company, chunks, embeddings);
    forall i, j | 0 <= i < j < |records|
      ensures records[i].id != records[j].id
    {
      if records[i].id == records[j].id {
        RecordIdInjective(company, i, company, j);
      }
    }
  }

  /** The vector list: one record per embedding, in order; an embedding without a chunk raises
      IndexError after the records before it were built. */
  method BuildVectors<E>(company: string, chunks: seq<string>, embeddings: seq<E>)
    returns (vectors: Result<seq<VectorRecord<E>>, string>)
    ensures vectors.Failure? <==> |embeddings| > |chunks|
    ensures vectors.Failure? ==> vectors.error == IndexErrorText
    ensures vectors.Success? ==> vectors.value == Records(company, chunks, embeddings)
  {
    var built: seq<VectorRecord<E>> := [];
    var i := 0;
    while i < |embeddings|
      invariant 0 <= i <= |embeddings| && i <= |chunks|
      invariant |built| == i
      invariant forall k :: 0 <= k < i ==>
        built[k] == VectorRecord(RecordId(company, k), embeddings[k], Metadata(company, chunks[k]))
    {
      if i >= |chunks| {
        return Failure(IndexErrorText);
      }
      built := built + [VectorRecord(RecordId(company, i), embeddings[i], Metadata(company, chunks[i]))];
      i := i + 1;
    }
    vectors := Success(built);
  }

  /** The steps once the text is chunked: encode the chunks, build one record per embedding,
      upsert them. Any collaborator error becomes the failure message. */
  function StoreChunks<E>(company: string, chunks: seq<string>,
                          encode: seq<string> -> Result<seq<E>, string>,
                          upsert: seq<VectorRecord<E>> -> Option<string>): (o: Outcome<E>)
    ensures 1 <= |o.trace| <= 2 && o.trace[0] == Encode(chunks)
    ensures forall k :: 0 <= k < |o.trace| ==> !o.trace[k].WriteTemp? && !o.trace[k].RemoveTemp?
  {
    var embedded := encode(chunks);
    if embedded.Failure? then Outcome(false, ErrorMessage(embedded.error), [Encode(chunks)])
    else if |embedded.value| > |chunks| then Outcome(false, ErrorMessage(IndexErrorText), [Encode(chunks)])
    else
      var records := Records(company, chunks, embedded.value);
      var stored := upsert(records);
      if stored.Some? then Outcome(false, ErrorMessage(stored.value), [Encode(chunks), Upsert(records)])
      else Outcome(true, SuccessMessage(|chunks|, company), [Encode(chunks), Upsert(records)])
  }

  /** The steps after the file is on disk: extract, reject blank text, chunk with the configured
      window and overlap, then store the chunks. */
  function RunPipeline<E>(pdfPath: string, company: string, extract: string -> Result<string, string>,
                          encode: seq<string> -> Result<seq<E>, string>,
                          upsert: seq<VectorRecord<E>> -> Option<string>): (o: Outcome<E>)
    ensures 1 <= |o.trace| <= 3 && o.trace[0] == Extract(pdfPath)
    ensures forall k :: 0 <= k < |o.trace| ==> !o.trace[k].WriteTemp? && !o.trace[k].RemoveTemp?
  {
    var extracted := extract(pdfPath);
    if extracted.Failure? then Outcome(false, ErrorMessage(extracted.error), [Extract(pdfPath)])
    else if Strip(extracted.value) == [] then Outcome(false, NoTextMessage, [Extract(pdfPath)])
    else
      var stored := StoreChunks(company, Chunks(extracted.value, Settings.ChunkSize, Settings.Overlap), encode, upsert);
      Outcome(stored.success, stored.message, [Extract(pdfPath)] + stored.trace)
  }

  /** process_and_store_pdf as written: an upload is first written to a temporary file, and that
      file is removed only on the success path. */
  function IngestAsWritten<E>(source: PdfSource, companyName: Option<string>, tempPath: string,
                              extract: string -> Result<string, string>,
                              encode: seq<string> -> Result<seq<E>, string>,
                              upsert: seq<VectorRecord<E>> -> Option<string>): (o: Outcome<E>)
    ensures source.Uploaded? ==>
      |o.trace| >= 2 && o.trace[0] == WriteTemp(tempPath) && (RemoveTemp(tempPath) in o.trace <==> o.success)
    ensures source.Path? ==> forall k :: 0 <= k < |o.trace| ==> !o.trace[k].WriteTemp? && !o.trace[k].RemoveTemp?
  {
    var company := DeriveCompany(source, companyName);
    if source.Path? then RunPipeline(source.path, company, extract, encode, upsert)
    else
      var o := RunPipeline(tempPath, company, extract, encode, upsert);
      Outcome(o.success, o.message, [WriteTemp(tempPath)] + o.trace + (if o.success then [RemoveTemp(tempPath)] else []))
  }

  /** process_and_store_pdf with the temporary file removed whatever the outcome. The document
      is read from the temporary copy of an upload or from the given path, under the derived
      company, and the result is the pipeline's. */
  function Ingest<E>(source: PdfSource, companyName: Option<string>, tempPath: string,
                     extract: string -> Result<string, string>,
                     encode: seq<string> -> Result<seq<E>, string>,
                     upsert: seq<VectorRecord<E>> -> Option<string>): (o: Outcome<E>)
    ensures var r := RunPipeline(PdfPath(source, tempPath), DeriveCompany(source, companyName), extract, encode, upsert);
      o.success == r.success && o.message == r.message
    ensures source.Uploaded? ==> |o.trace| >= 3 && o.trace[1] == Extract(tempPath)
    ensures source.Path? ==> |o.trace| >= 1 && o.trace[0] == Extract(source.path)
  {
    var company := DeriveCompany(source, companyName);
    if source.Path? then RunPipeline(source.path, company, extract, encode, upsert)
    else
      var o := RunPipeline(tempPath, company, extract, encode, upsert);
      Outcome(o.success, o.message, [WriteTemp(tempPath)] + o.trace + [RemoveTemp(tempPath)])
  }

  /** Encoding and storing as the method does it, with the vector list built by the loop. */
  method StoreChunksSteps<E>(company: string, chunks: seq<string>,
                             encode: seq<string> -> Result<seq<E>, string>,
                             upsert: seq<VectorRecord<E>> -> Option<string>)
    returns (success: bool, message: string, trace: seq<Event<E>>)
    ensures Outcome(success, message, trace) == StoreChunks(company, chunks, encode, upsert)
  {
    var embedded := encode(chunks);
    trace := [Encode(chunks)];
    if embedded.Failure? {
      return false, ErrorMessage(embedded.error), trace;
    }
    var vectors := BuildVectors(company, chunks, embedded.value);
    if vectors.Failure? {
      return false, ErrorMessage(vectors.error), trace;
    }
    var stored := upsert(vectors.value);
    trace := trace + [Upsert(vectors.value)];
    if stored.Some? {
      return false, ErrorMessage(stored.value), trace;
    }
    success, message := true, SuccessMessage(|chunks|, company);
  }

  /** The pipeline steps as the method takes them: extract, reject blank text, chunk with the
      loop of chunk_text, then encode and store. */
  method RunPipelineSteps<E>(pdfPath: string, company: string, extract: string -> Result<string, string>,
                             encode: seq<string> -> Result<seq<E>, string>,
                             upsert: seq<VectorRecord<E>> -> Option<string>)
    returns (success: bool, message: string, trace: seq<Event<E>>)
    ensures Outcome(success, message, trace) == RunPipeline(pdfPath, company, extract, encode, upsert)
  {
    var extracted := extract(pdfPath);
    if extracted.Failure? {
      return false, ErrorMessage(extracted.error), [Extract(pdfPath)];
    }
    if Strip(extracted.value) == [] {
      return false, NoTextMessage, [Extract(pdfPath)];
    }
    var chunks := ChunkText(extracted.value, Settings.ChunkSize, Settings.Overlap);
    var steps;
    success, message, steps := StoreChunksSteps(company, chunks, encode, upsert);
    trace := [Extract(pdfPath)] + steps;
  }

  /** process_and_store_pdf: an upload is written to the temporary file first and read from
      there, the pipeline runs, and the temporary file is removed on every path. */
  method ProcessAndStorePdf<E>(source: PdfSource, companyName: Option<string>, tempPath: string,
                               extract: string -> Result<string, string>,
                               encode: seq<string> -> Result<seq<E>, string>,
                               upsert: seq<VectorRecord<E>> -> Option<string>)
    returns (success: bool, message: string, trace: seq<Event<E>>)
    ensures Outcome(success, message, trace) == Ingest(source, companyName, tempPath, extract, encode, upsert)
  {
    var pdfPath: string;
    var company := DeriveCompany(source, companyName);
    if source.Uploaded? {
      pdfPath := tempPath;
    } else {
      pdfPath := source.path;
    }
    var steps;
    success, message, steps := RunPipelineSteps(pdfPath, company, extract, encode, upsert);
    if source.Uploaded? {
      trace := [WriteTemp(tempPath)] + steps + [RemoveTemp(tempPath)];
    } else {
      trace := steps;
    }
  }

  /** The path a document is read from. */
  function PdfPath(source: PdfSource, tempPath: string): string {
    if source.Uploaded? then tempPath else source.path
  }

  /** Text that is empty or all whitespace is refused before anything is encoded or stored: the
      only steps are the extraction and, for an upload, the temporary file's write and removal. */
  lemma BlankTextRejected<E>(source: PdfSource, companyName: Option<string>, tempPath: string,
                             extract: string -> Result<string, string>,
                             encode: seq<string> -> Result<seq<E>, string>,
                             upsert: seq<VectorRecord<E>> -> Option<string>)
    requires extract(PdfPath(source, tempPath)).Success? && IsBlank(extract(PdfPath(source, tempPath)).value)
    ensures var o := Ingest(source, companyName, tempPath, extract, encode, upsert); var p := PdfPath(source, tempPath);
      !o.success && o.message == NoTextMessage &&
      o.trace == (if source.Uploaded? then [WriteTemp(p), Extract(p), RemoveTemp(p)] else [Extract(p)])
  {
    var p := PdfPath(source, tempPath);
    StripEmptyIffBlank(extract(p).value);
    assert RunPipeline(p, DeriveCompany(source, companyName), extract, encode, upsert)
        == Outcome(false, NoTextMessage, [Extract(p)]);
  }

  /** When the ingestion succeeds, and only then: the text was there and not blank, the encoder
      and the index raised nothing and gave no embedding without a chunk. The index then received
      exactly the records of the chunks under the derived company, and the message names the
      chunk count and the company. */
  lemma IngestSuccess<E>(source: PdfSource, companyName: Option<string>, tempPath: string,
                         extract: string -> Result<string, string>,
                         encode: seq<string> -> Result<seq<E>, string>,
                         upsert: seq<VectorRecord<E>> -> Option<string>)
    ensures var o := Ingest(source, companyName, tempPath, extract, encode, upsert);
      var x := extract(PdfPath(source, tempPath));
      o.success <==>
        x.Success? && !IsBlank(x.value) &&
        var chunks := Chunks(x.value, Settings.ChunkSize, Settings.Overlap);
        encode(chunks).Success? && |encode(chunks).value| <= |chunks| &&
        upsert(Records(DeriveCompany(source, companyName), chunks, encode(chunks).value)).None?
    ensures var o := Ingest(source, companyName, tempPath, extract, encode, upsert);
      var x := extract(PdfPath(source, tempPath)); var company := DeriveCompany(source, companyName);
      o.success ==>
        var chunks := Chunks(x.value, Settings.ChunkSize, Settings.Overlap);
        o.message == SuccessMessage(|chunks|, company) &&
        Upsert(Records(company, chunks, encode(chunks).value)) in o.trace
  {
    var x := extract(PdfPath(source, tempPath));
    if x.Success? {
      StripEmptyIffBlank(x.value);
    }
  }

  /** A success message always names the chunk count of the extracted text. */
  lemma SucceededMessage<E>(source: PdfSource, companyName: Option<string>, tempPath: string,
                            extract: string -> Result<string, string>,
                            encode: seq<string> -> Result<seq<E>, string>,
                            upsert: seq<VectorRecord<E>> -> Option<string>)
    ensures var o := Ingest(source, companyName, tempPath, extract, encode, upsert);
      var x := extract(PdfPath(source, tempPath));
      o.success ==>
        (x.Success? &&
         o.message == SuccessMessage(|Chunks(x.value, Settings.ChunkSize, Settings.Overlap)|, DeriveCompany(source, companyName)))
  {
  }

  /** Finding: an upload whose text turns out blank leaves its temporary file behind in the code
      as written. */
  lemma TempFileLeaks<E>(name: string, size: int, tempPath: string,
                         encode: seq<string> -> Result<seq<E>, string>,
                         upsert: seq<VectorRecord<E>> -> Option<string>)
    ensures var extract: string -> Result<string, string> := (p: string) => Success(" ");
      var o := IngestAsWritten(Uploaded(UploadedFile(name, size)), None, tempPath, extract, encode, upsert);
      o.trace == [WriteTemp(tempPath), Extract(tempPath)] && RemoveTemp(tempPath) !in o.trace
  {
    assert Strip(" ") == [] by {
      StripEmptyIffBlank(" ");
    }
  }

  /** With the correction, an upload's temporary file is written first and removed last on every
      path, and a given path is never written or removed. */
  lemma TempFileAlwaysRemoved<E>(source: PdfSource, companyName: Option<string>, tempPath: string,
                                 extract: string -> Result<string, string>,
                                 encode: seq<string> -> Result<seq<E>, string>,
                                 upsert: seq<VectorRecord<E>> -> Option<string>)
    ensures var t := Ingest(source, companyName, tempPath, extract, encode, upsert).trace;
      source.Uploaded? ==> |t| >= 3 && t[0] == WriteTemp(tempPath) && t[|t| - 1] == RemoveTemp(tempPath)
    ensures var t := Ingest(source, companyName, tempPath, extract, encode, upsert).trace;
      source.Path? ==> forall k :: 0 <= k < |t| ==> !t[k].WriteTemp? && !t[k].RemoveTemp?
  {
  }

  /** The correction changes nothing but the cleanup: same success and message everywhere, and
      the same steps for a path and for a successful upload. */
  lemma CleanupOnlyChange<E>(source: PdfSource, companyName: Option<string>, tempPath: string,
                             extract: string -> Result<string, string>,
                             encode: seq<string> -> Result<seq<E>, string>,
                             upsert: seq<VectorRecord<E>> -> Option<string>)
    ensures var o := Ingest(source, companyName, tempPath, extract, encode, upsert);
      var w := IngestAsWritten(source, companyName, tempPath, extract, encode, upsert);
      o.success == w.success && o.message == w.message &&
      (source.Path? || o.success ==> o == w) &&
      (source.Uploaded? && !o.success ==> o.trace == w.trace + [RemoveTemp(tempPath)])
  {
  }

  /** Printable ASCII other than the space is not whitespace. */
  lemma VisibleNotSpace(w: string)
    requires forall i :: 0 <= i < |w| ==> '!' <= w[i] <= '~'
    ensures forall i :: 0 <= i < |w| ==> !IsSpace(w[i])
  {
  }

  /** The third field of "a b c rest" is c, for words a, b and c. */
  lemma ThirdField(a: string, b: string, c: string, rest: string)
    requires |a| > 0 && forall i :: 0 <= i < |a| ==> !IsSpace(a[i])
    requires |b| > 0 && forall i :: 0 <= i < |b| ==> !IsSpace(b[i])
    requires |c| > 0 && forall i :: 0 <= i < |c| ==> !IsSpace(c[i])
    ensures var words := Split(a + " " + (b + " " + (c + " " + rest))); |words| >= 3 && words[2] == c
  {
    SplitWord(c, rest);
    SplitWord(b, c + " " + rest);
    SplitWord(a, b + " " + (c + " " + rest));
  }

  /** Reading the count back out of a success message, as the folder tally does with
      int(message.split()[2]), gives the chunk count. */
  lemma SuccessMessageCount(n: nat, company: string)
    ensures var words := Split(SuccessMessage(n, company));
      |words| >= 3 && AllDigits(words[2]) && ParseNat(words[2]) == n
  {
    var digits := NatToString(n);
    VisibleNotSpace(digits);
    VisibleNotSpace("processed");
    VisibleNotSpace("Successfully");
    var rest := "chunks from " + company;
    assert SuccessMessage(n, company) == "Successfully" + " " + ("processed" + " " + (digits + " " + rest));
    ThirdField("Successfully", "processed", digits, rest);
    ParseNatToString(n);
  }

  /** POSIX os.path.join of a folder and a file name. */
  function JoinPath(folder: string, file: string): (path: string)
    ensures |file| <= |path| && path[|path| - |file|..] == file
  {
    if |file| > 0 && file[0] == '/' then file
    else if folder == [] || folder[|folder| - 1] == '/' then folder + file
    else folder + "/" + file
  }

  /** The file a joined path names is the listed one: a name without '/' is the basename of its
      path in the folder, so the file ingested is the file listed. */
  lemma JoinPathBasename(folder: string, file: string)
    requires forall i :: 0 <= i < |file| ==> file[i] != '/'
    ensures Basename(JoinPath(folder, file)) == file
  {
    var p := JoinPath(folder, file);
    assert |p| > |file| ==> p[|p| - |file| - 1] == '/';
  }

  /** The counters process_folder returns. */
  datatype Counters = Counters(totalFiles: nat, successful: nat, failed: nat, totalChunks: nat)

  /** The outcome of ingesting one listed file under its own company name. */
  function FileOutcome<E>(folder: string, file: string, extract: string -> Result<string, string>,
                          encode: seq<string> -> Result<seq<E>, string>,
                          upsert: seq<VectorRecord<E>> -> Option<string>): Outcome<E>
  {
    Ingest(Path(JoinPath(folder, file)), Some(CompanyFromFilename(file)), "", extract, encode, upsert)
  }

  /** The PDF files among `files` whose ingestion succeeds. */
  function CountSucceeded<E>(folder: string, files: seq<string>, extract: string -> Result<string, string>,
                             encode: seq<string> -> Result<seq<E>, string>,
                             upsert: seq<VectorRecord<E>> -> Option<string>): nat
    decreases |files|
  {
    if files == [] then 0
    else
      var f := files[|files| - 1];
      CountSucceeded(folder, files[..|files| - 1], extract, encode, upsert) +
      (if IsPdfName(f) && FileOutcome(folder, f, extract, encode, upsert).success then 1 else 0)
  }

  /** The PDF files among `files` whose ingestion fails. */
  function CountFailed<E>(folder: string, files: seq<string>, extract: string -> Result<string, string>,
                          encode: seq<string> -> Result<seq<E>, string>,
                          upsert: seq<VectorRecord<E>> -> Option<string>): nat
    decreases |files|
  {
    if files == [] then 0
    else
      var f := files[|files| - 1];
      CountFailed(folder, files[..|files| - 1], extract, encode, upsert) +
      (if IsPdfName(f) && !FileOutcome(folder, f, extract, encode, upsert).success then 1 else 0)
  }

  /** The chunks a listed file adds to the tally: the chunk count of its text when it is a PDF
      whose ingestion succeeds, nothing otherwise. */
  function FileChunks<E>(folder: string, file: string, extract: string -> Result<string, string>,
                         encode: seq<string> -> Result<seq<E>, string>,
                         upsert: seq<VectorRecord<E>> -> Option<string>): nat
  {
    var x := extract(JoinPath(folder, file));
    if IsPdfName(file) && FileOutcome(folder, file, extract, encode, upsert).success && x.Success?
    then |Chunks(x.value, Settings.ChunkSize, Settings.Overlap)| else 0
  }

  /** The chunk counts of the successfully ingested files, added up. */
  function SumChunks<E>(folder: string, files: seq<string>, extract: string -> Result<string, string>,
                        encode: seq<string> -> Result<seq<E>, string>,
                        upsert: seq<VectorRecord<E>> -> Option<string>): nat
    decreases |files|
  {
    if files == [] then 0
    else
      SumChunks(folder, files[..|files| - 1], extract, encode, upsert) +
      FileChunks(folder, files[|files| - 1], extract, encode, upsert)
  }

  /** Every PDF file is counted once, as a success or as a failure. */
  lemma {:induction false} TallyBalanced<E>(folder: string, files: seq<string>, extract: string -> Result<string, string>,
                                            encode: seq<string> -> Result<seq<E>, string>,
                                            upsert: seq<VectorRecord<E>> -> Option<string>)
    ensures CountPdfNames(files) ==
      CountSucceeded(folder, files, extract, encode, upsert) + CountFailed(folder, files, extract, encode, upsert)
    decreases |files|
  {
    if files != [] {
      TallyBalanced(folder, files[..|files| - 1], extract, encode, upsert);
    }
  }

  /** Files that are not PDFs change no counter. */
  lemma {:induction false} NonPdfIgnored<E>(folder: string, files: seq<string>, other: string,
                                            extract: string -> Result<string, string>,
                                            encode: seq<string> -> Result<seq<E>, string>,
                                            upsert: seq<VectorRecord<E>> -> Option<string>)
    requires !IsPdfName(other)
    ensures CountPdfNames(files + [other]) == CountPdfNames(files)
    ensures CountSucceeded(folder, files + [other], extract, encode, upsert) == CountSucceeded(folder, files, extract, encode, upsert)
    ensures CountFailed(folder, files + [other], extract, encode, upsert) == CountFailed(folder, files, extract, encode, upsert)
    ensures SumChunks(folder, files + [other], extract, encode, upsert) == SumChunks(folder, files, extract, encode, upsert)
  {
    assert (files + [other])[..|files|] == files;
  }

  /** What one listed PDF contributes, read off the outcome of its ingestion: the flag is the
      file's outcome, and the count read back out of a success message is its chunk count. */
  lemma ListedOutcome<E>(folder: string, file: string, success: bool, message: string, trace: seq<Event<E>>,
                         extract: string -> Result<string, string>,
                         encode: seq<string> -> Result<seq<E>, string>,
                         upsert: seq<VectorRecord<E>> -> Option<string>)
    requires IsPdfName(file)
    requires Outcome(success, message, trace) ==
      Ingest(Path(JoinPath(folder, file)), Some(CompanyFromFilename(file)), "", extract, encode, upsert)
    ensures success == FileOutcome(folder, file, extract, encode, upsert).success
    ensures success ==> |Split(message)| >= 3 && AllDigits(Split(message)[2]) && ParseNat(Split(message)[2]) == FileChunks(folder, file, extract, encode, upsert)
    ensures !success ==> FileChunks(folder, file, extract, encode, upsert) == 0
  {
    if success {
      var path := Path(JoinPath(folder, file));
      var company := CompanyFromFilename(file);
      SucceededMessage(path, Some(company), "", extract, encode, upsert);
      var count := |Chunks(extract(JoinPath(folder, file)).value, Settings.ChunkSize, Settings.Overlap)|;
      assert message == SuccessMessage(count, company);
      SuccessMessageCount(count, company);
    }
  }

  /** One pass of process_folder's loop: a PDF name is counted, ingested from the folder under
      its own company name, and counted as a success, with the chunk count read back out of the
      message, or as a failure; any other name changes nothing. */
  method ProcessListedFile<E>(folderPath: string, file: string, results: Counters,
                              extract: string -> Result<string, string>,
                              encode: seq<string> -> Result<seq<E>, string>,
                              upsert: seq<VectorRecord<E>> -> Option<string>)
    returns (next: Counters)
    ensures var pdf := IsPdfName(file); var ok := FileOutcome(folderPath, file, extract, encode, upsert).success;
      next == Counters(results.totalFiles + (if pdf then 1 else 0),
                       results.successful + (if pdf && ok then 1 else 0),
                       results.failed + (if pdf && !ok then 1 else 0),
                       results.totalChunks + FileChunks(folderPath, file, extract, encode, upsert))
  {
    next := results;
    if !IsPdfName(file) {
      return;
    }
    next := next.(totalFiles := next.totalFiles + 1);
    var pdfPath := JoinPath(folderPath, file);
    var companyName := CompanyFromFilename(file);
    var success, message, trace := ProcessAndStorePdf(Path(pdfPath), Some(companyName), "", extract, encode, upsert);
    ListedOutcome(folderPath, file, success, message, trace, extract, encode, upsert);
    if success {
      next := next.(successful := next.successful + 1);
      var chunksCount := ParseNat(Split(message)[2]);
      next := next.(totalChunks := next.totalChunks + chunksCount);
    } else {
      next := next.(failed := next.failed + 1);
    }
  }

  /** process_folder: every name in the listing goes through the loop above; the counters record
      how many PDFs were tried, succeeded and failed, and how many chunks the successes stored.
      A folder that does not exist, an absent listing, gives all zeros. */
  method ProcessFolder<E>(folderPath: string, listing: Option<seq<string>>,
                          extract: string -> Result<string, string>,
                          encode: seq<string> -> Result<seq<E>, string>,
                          upsert: seq<VectorRecord<E>> -> Option<string>)
    returns (results: Counters)
    ensures listing.None? ==> results == Counters(0, 0, 0, 0)
    ensures listing.Some? ==>
      var files := listing.value;
      results.totalFiles == CountPdfNames(files) &&
      results.successful == CountSucceeded(folderPath, files, extract, encode, upsert) &&
      results.failed == CountFailed(folderPath, files, extract, encode, upsert) &&
      results.totalChunks == SumChunks(folderPath, files, extract, encode, upsert)
    ensures results.totalFiles == results.successful + results.failed
  {
    results := Counters(0, 0, 0, 0);
    if listing.None? {
      return;
    }
    var files := listing.value;
    var i := 0;
    while i < |files|
      invariant 0 <= i <= |files|
      invariant results.totalFiles == CountPdfNames(files[..i])
      invariant results.successful == CountSucceeded(folderPath, files[..i], extract, encode, upsert)
      invariant results.failed == CountFailed(folderPath, files[..i], extract, encode, upsert)
      invariant results.totalChunks == SumChunks(folderPath, files[..i], extract, encode, upsert)
    {
      assert files[..i + 1][..i] == files[..i];
      results := ProcessListedFile(folderPath, files[i], results, extract, encode, upsert);
      i := i + 1;
    }
    assert files[..i] == files;
    TallyBalanced(folderPath, files, extract, encode, upsert);
  }
}
