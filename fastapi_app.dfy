/**
 * The validation and bookkeeping of the HTTP layer in front of the engine:
 * the extension test and dispatch of `process_file`, the accumulation loop
 * of `upload_files`, and the question check of the `/query` route.
 */
module FastApiApp {
  import opened Wrappers
  import opened PyStr
  import Rag

  newtype Byte = x: int | 0 <= x < 256

  /** An uploaded file: its name and its raw bytes. */
  datatype UploadedFile = UploadedFile(filename: string, content: seq<Byte>)

  /** The four readers: plain text, PDF, Word and CSV. */
  datatype FileFormat = Txt | Pdf | Docx | Csv

  /** A text reader either returns the text or raises with a message. */
  datatype Extraction = Extracted(text: string) | ExtractionFailed(message: string)

  /** An `HTTPException`: status code and detail. */
  datatype HttpError = HttpError(statusCode: int, detail: string)

  datatype UploadResponse = UploadResponse(message: string, uploadedCount: int)

  const BadRequest: int := 400
  const AllowedExtensions: seq<string> := ["txt", "pdf", "csv", "docx"]

  /** The index of the last dot in `s`, or -1 when there is none. */
  function LastDot(s: string): (k: int)
    ensures -1 <= k < |s|
    ensures k >= 0 ==> s[k] == '.'
    ensures forall j :: k < j < |s| ==> s[j] != '.'
    decreases |s|
  {
    if s == [] then -1
    else if s[|s| - 1] == '.' then |s| - 1
    else LastDot(s[..|s| - 1])
  }

  /** `s.split('.')[-1]`: what follows the last dot, or all of `s` when there is none. */
  function AfterLastDot(s: string): (r: string)
    ensures forall i :: 0 <= i < |r| ==> r[i] != '.'
    ensures '.' !in s ==> r == s
  {
    s[LastDot(s) + 1..]
  }

  /** The extension `process_file` dispatches on: `filename.lower().split('.')[-1]`. */
  function ProcessExtension(filename: string): string {
    AfterLastDot(Lower(filename))
  }

  /** The extension `upload_files` filters on: `file.filename.split('.')[-1].lower()`. */
  function UploadExtension(filename: string): string {
    Lower(AfterLastDot(filename))
  }

  function FormatOf(extension: string): Option<FileFormat> {
    if extension == "txt" then Some(Txt)
    else if extension == "pdf" then Some(Pdf)
    else if extension == "docx" then Some(Docx)
    else if extension == "csv" then Some(Csv)
    else None
  }

  /**
   * `process_file`: pick the reader by extension; an unknown extension and a
   * failing reader both become a 400 error naming the file.
   */
  function ProcessFile(file: UploadedFile, extract: (FileFormat, seq<Byte>) -> Extraction): (r: Result<Rag.Document, HttpError>)
    ensures r.Success? ==> ProcessExtension(file.filename) in AllowedExtensions && r.value.filename == file.filename
    ensures ProcessExtension(file.filename) !in AllowedExtensions ==>
      r == Failure(HttpError(BadRequest, "Error processing " + file.filename + ": Unsupported file type: " + ProcessExtension(file.filename)))
    ensures r.Failure? ==> r.error.statusCode == BadRequest
    ensures FormatOf(ProcessExtension(file.filename)).Some? ==>
      match extract(FormatOf(ProcessExtension(file.filename)).value, file.content)
      case Extracted(text) => r == Success(Rag.Document(text, file.filename))
      case ExtractionFailed(message) => r == Failure(HttpError(BadRequest, "Error processing " + file.filename + ": " + message))
  {
    var extension := ProcessExtension(file.filename);
    match FormatOf(extension)
    case None =>
      Failure(HttpError(BadRequest, "Error processing " + file.filename + ": Unsupported file type: " + extension))
    case Some(format) =>
      match extract(format, file.content)
      case Extracted(text) => Success(Rag.Document(text, file.filename))
      case ExtractionFailed(message) => Failure(HttpError(BadRequest, "Error processing " + file.filename + ": " + message))
  }

  /** The filter of `upload_files`: the extension is one of the four allowed. */
  predicate PassesFilter(file: UploadedFile) {
    UploadExtension(file.filename) in AllowedExtensions
  }

  /** What `upload_files` takes from one file: its document when it passes the filter and processes without error. */
  function Outcome(file: UploadedFile, extract: (FileFormat, seq<Byte>) -> Extraction): Option<Rag.Document> {
    if !PassesFilter(file) then None
    else match ProcessFile(file, extract)
      case Success(doc) => Some(doc)
      case Failure(_) => None
  }

  function OutcomeOf(extract: (FileFormat, seq<Byte>) -> Extraction): UploadedFile -> Option<Rag.Document> {
    file => Outcome(file, extract)
  }

  /** The values an outcome yields over a sequence, in order. */
  function Collected<X, Y>(xs: seq<X>, outcome: X -> Option<Y>): seq<Y>
    decreases |xs|
  {
    if xs == [] then []
    else
      var prev := Collected(xs[..|xs| - 1], outcome);
      match outcome(xs[|xs| - 1])
      case Some(y) => prev + [y]
      case None => prev
  }

  /** The documents `upload_files` collects, in upload order. */
  function AcceptedDocuments(files: seq<UploadedFile>, extract: (FileFormat, seq<Byte>) -> Extraction): seq<Rag.Document> {
    Collected(files, OutcomeOf(extract))
  }

  predicate IsDigit(c: char) {
    '0' <= c <= '9'
  }

  function DigitValue(c: char): int {
    c as int - '0' as int
  }

  /** The number a string of decimal digits denotes. */
  function DecimalValue(s: string): int
    decreases |s|
  {
    if s == [] then 0 else 10 * DecimalValue(s[..|s| - 1]) + DigitValue(s[|s| - 1])
  }

  function DigitChar(d: nat): (c: char)
    requires d < 10
    ensures IsDigit(c) && DigitValue(c) == d
  {
    ('0' as int + d) as char
  }

  /** `str(n)` for a natural number: its decimal digits, without leading zeros. */
  function NatToString(n: nat): (r: string)
    ensures r != [] && forall i :: 0 <= i < |r| ==> IsDigit(r[i])
    ensures DecimalValue(r) == n
    ensures |r| > 1 ==> r[0] != '0'
    decreases n
  {
    if n < 10 then
      var r := [DigitChar(n)];
      assert r[..0] == [];
      r
    else
      var p := NatToString(n / 10);
      var r := p + [DigitChar(n % 10)];
      assert r[..|r| - 1] == p;
      assert |p| == 1 ==> DecimalValue(p) == DigitValue(p[0]) by {
        if |p| == 1 {
          assert p[..0] == [];
        }
      }
      r
  }

  const UploadPrefix := "Successfully uploaded "
  const UploadSuffix := " file(s)"

  /** The upload reply: the fixed text around `uploaded_count` written in decimal. */
  function UploadMessage(count: nat): (r: string)
    ensures |r| > |UploadPrefix| + |UploadSuffix|
    ensures r[..|UploadPrefix|] == UploadPrefix && r[|r| - |UploadSuffix|..] == UploadSuffix
    ensures var digits := r[|UploadPrefix|..|r| - |UploadSuffix|];
      (forall i :: 0 <= i < |digits| ==> IsDigit(digits[i])) && DecimalValue(digits) == count
  {
    var digits := NatToString(count);
    var r := UploadPrefix + digits + UploadSuffix;
    assert r[|UploadPrefix|..|r| - |UploadSuffix|] == digits;
    r
  }

  /**
   * The loop of `upload_files`: skip files with another extension, keep the
   * documents that process, and count them.
   */
  method CollectDocuments(files: seq<UploadedFile>, extract: (FileFormat, seq<Byte>) -> Extraction)
    returns (documents: seq<Rag.Document>, uploadedCount: nat)
    ensures documents == AcceptedDocuments(files, extract)
    ensures uploadedCount == |documents|
  {
    documents := [];
    uploadedCount := 0;
    for i := 0 to |files|
      invariant documents == AcceptedDocuments(files[..i], extract)
      invariant uploadedCount == |documents|
    {
      CollectedStep(files, i, OutcomeOf(extract));
      var file := files[i];
      assert OutcomeOf(extract)(file) == Outcome(file, extract);
      var fileExt := UploadExtension(file.filename);
      if fileExt !in AllowedExtensions {
        assert Outcome(file, extract) == None;
        continue;
      }
      var doc := ProcessFile(file, extract);
      if doc.Success? {
        assert Outcome(file, extract) == Some(doc.value);
        documents := documents + [doc.value];
        uploadedCount := uploadedCount + 1;
      }
    }
    assert files[..|files|] == files;
  }

  /**
   * `upload_files`: reject an empty upload; otherwise skip files with another
   * extension, keep the documents that process, count them, and hand them to
   * the engine when there is at least one.
   */
  method UploadFiles(engine: Rag.RagEngine, files: seq<UploadedFile>, extract: (FileFormat, seq<Byte>) -> Extraction)
    returns (r: Result<UploadResponse, HttpError>)
    requires engine.Valid()
    modifies engine
    ensures engine.Valid()
    ensures files == [] ==> r == Failure(HttpError(BadRequest, "No files provided")) && unchanged(engine)
    ensures files != [] ==>
      var accepted := AcceptedDocuments(files, extract);
      && r == Success(UploadResponse(UploadMessage(|accepted|), |accepted|))
      && engine.chunks == old(engine.chunks) + Rag.Ingested(accepted, |old(engine.chunks)|)
    ensures AcceptedDocuments(files, extract) == [] ==> unchanged(engine)
  {
    if files == [] {
      return Failure(HttpError(BadRequest, "No files provided"));
    }
    var documents, uploadedCount := CollectDocuments(files, extract);
    if documents != [] {
      engine.AddDocuments(documents);
    }
    r := Success(UploadResponse(UploadMessage(uploadedCount), uploadedCount));
  }

  /** `request.get("question", "")`: a missing question reads as the empty string. */
  function QuestionText(question: Option<string>): string {
    match question
    case Some(q) => q
    case None => ""
  }

  /**
   * The question check of the `/query` route: a missing or whitespace-only
   * question is a 400 error; otherwise the stripped question goes on.
   */
  function ValidQuestion(question: Option<string>): (r: Result<string, HttpError>)
    ensures r.Failure? <==> IsBlank(QuestionText(question))
    ensures r.Failure? ==> r.error == HttpError(BadRequest, "Question is required")
    ensures r.Success? ==> r.value == Strip(QuestionText(question))
    ensures r.Success? ==> r.value != [] && !IsSpace(r.value[0]) && !IsSpace(r.value[|r.value| - 1])
  {
    var q := Strip(QuestionText(question));
    if q == [] then Failure(HttpError(BadRequest, "Question is required"))
    else
      assert !IsSpace(q[0]) && !IsSpace(q[|q| - 1]);
      Success(q)
  }

  /** The `/query` route: the engine is asked only about a question that passes the check. */
  method Query(engine: Rag.RagEngine, question: Option<string>) returns (r: Result<Rag.QueryResponse, HttpError>)
    requires engine.Valid()
    ensures ValidQuestion(question).Failure? ==> r == Failure(ValidQuestion(question).error)
    ensures ValidQuestion(question).Success? ==> r == Success(engine.Respond(ValidQuestion(question).value))
  {
    match ValidQuestion(question)
    case Failure(error) =>
      r := Failure(error);
    case Success(stripped) =>
      var response := engine.Query(stripped);
      r := Success(response);
  }

  // ---------------------------------------------------------------------------
  // Lemmas

  /** A name with a dot is its stem, the last dot and the extension. */
  lemma ExtensionShape(s: string)
    ensures '.' in s ==> s == s[..LastDot(s)] + "." + AfterLastDot(s)
  {
    var k := LastDot(s);
    if '.' in s {
      var i :| 0 <= i < |s| && s[i] == '.';
      assert s == s[..k] + [s[k]] + s[k + 1..];
    }
  }

  /**
   * The dispatch extension is the lower-cased text after the last dot of the
   * name, or the whole lower-cased name when it has no dot.
   */
  lemma DispatchExtension(filename: string)
    ensures ProcessExtension(filename) == Lower(AfterLastDot(filename))
    ensures '.' !in filename ==> ProcessExtension(filename) == Lower(filename)
    ensures '.' !in ProcessExtension(filename)
  {
    var e := AfterLastDot(filename);
    assert ProcessExtension(filename) == Lower(e) by {
      LowerCommutesWithExtension(filename);
    }
    NoDotAfterLowering(e);
  }

  /** Lower-casing a dot-free string keeps it dot-free. */
  lemma NoDotAfterLowering(e: string)
    requires forall i :: 0 <= i < |e| ==> e[i] != '.'
    ensures '.' !in Lower(e)
  {
    var r := Lower(e);
    assert forall i :: 0 <= i < |r| ==> r[i] != '.';
  }

  /** Lower-casing then splitting at dots gives the same extension as splitting then lower-casing. */
  lemma LowerCommutesWithExtension(s: string)
    ensures AfterLastDot(Lower(s)) == Lower(AfterLastDot(s))
  {
    var ls := Lower(s);
    var k := LastDot(s);
    assert LastDot(ls) == k;
    assert ls[k + 1..] == Lower(s[k + 1..]);
  }

  /** The two extension spellings agree, so a file that passes the upload filter fails to process only when its reader fails. */
  lemma FilteredFileIsSupported(file: UploadedFile, extract: (FileFormat, seq<Byte>) -> Extraction)
    requires UploadExtension(file.filename) in AllowedExtensions
    ensures ProcessExtension(file.filename) == UploadExtension(file.filename)
    ensures FormatOf(UploadExtension(file.filename)).Some?
    ensures ProcessFile(file, extract).Failure? <==> extract(FormatOf(UploadExtension(file.filename)).value, file.content).ExtractionFailed?
  {
    var extension := UploadExtension(file.filename);
    LowerCommutesWithExtension(file.filename);
    FormatsAreAllowed(extension);
    var format := FormatOf(extension).value;
    assert ProcessFile(file, extract).Failure? <==> extract(format, file.content).ExtractionFailed?;
  }

  /**
   * A file yields a document exactly when it passes the filter and processes; for
   * a file that passes, exactly when its reader extracts the text. The document
   * keeps the file's name.
   */
  lemma OutcomeExactly(file: UploadedFile, extract: (FileFormat, seq<Byte>) -> Extraction)
    ensures Outcome(file, extract).Some? <==> PassesFilter(file) && ProcessFile(file, extract).Success?
    ensures Outcome(file, extract).Some? ==> Outcome(file, extract).value.filename == file.filename
    ensures PassesFilter(file) ==>
      && FormatOf(UploadExtension(file.filename)).Some?
      && (Outcome(file, extract).Some? <==> extract(FormatOf(UploadExtension(file.filename)).value, file.content).Extracted?)
    ensures PassesFilter(file) && FormatOf(UploadExtension(file.filename)).Some? ==>
      match extract(FormatOf(UploadExtension(file.filename)).value, file.content)
      case Extracted(text) => Outcome(file, extract) == Some(Rag.Document(text, file.filename))
      case ExtractionFailed(_) => Outcome(file, extract) == None
  {
    if PassesFilter(file) {
      FilteredFileIsSupported(file, extract);
    }
  }

  /** `process_file` has a reader for exactly the four allowed extensions. */
  lemma FormatsAreAllowed(extension: string)
    ensures FormatOf(extension).Some? <==> extension in AllowedExtensions
  {
  }

  /** Collecting over one more element appends what that element yields. */
  lemma CollectedStep<X, Y>(xs: seq<X>, i: int, outcome: X -> Option<Y>)
    requires 0 <= i < |xs|
    ensures Collected(xs[..i + 1], outcome)
      == Collected(xs[..i], outcome) + (if outcome(xs[i]).Some? then [outcome(xs[i]).value] else [])
  {
    assert xs[..i + 1][..i] == xs[..i];
  }

  /** A value is collected exactly when some element yields it; there are at most as many values as elements. */
  lemma {:induction false} CollectedExactly<X, Y>(xs: seq<X>, outcome: X -> Option<Y>)
    ensures |Collected(xs, outcome)| <= |xs|
    ensures forall y :: y in Collected(xs, outcome) <==> (exists i :: 0 <= i < |xs| && outcome(xs[i]) == Some(y))
    decreases |xs|
  {
    if xs != [] {
      var init := xs[..|xs| - 1];
      CollectedExactly(init, outcome);
      forall y
        ensures y in Collected(xs, outcome) <==> (exists i :: 0 <= i < |xs| && outcome(xs[i]) == Some(y))
      {
        if exists i :: 0 <= i < |xs| && outcome(xs[i]) == Some(y) {
          var i :| 0 <= i < |xs| && outcome(xs[i]) == Some(y);
          if i < |init| { assert init[i] == xs[i]; }
        }
        if y in Collected(init, outcome) {
          var i :| 0 <= i < |init| && outcome(init[i]) == Some(y);
          assert xs[i] == init[i];
        }
      }
    }
  }

  /**
   * A document is collected exactly when some uploaded file passes the
   * extension filter and processes to it; at most one document per file.
   */
  lemma AcceptedExactly(files: seq<UploadedFile>, extract: (FileFormat, seq<Byte>) -> Extraction)
    ensures |AcceptedDocuments(files, extract)| <= |files|
    ensures forall d :: d in AcceptedDocuments(files, extract) <==>
      (exists i :: 0 <= i < |files| && PassesFilter(files[i]) && ProcessFile(files[i], extract) == Success(d))
  {
    CollectedExactly(files, OutcomeOf(extract));
    forall i | 0 <= i < |files|
      ensures OutcomeOf(extract)(files[i]).Some? <==> PassesFilter(files[i]) && ProcessFile(files[i], extract).Success?
      ensures OutcomeOf(extract)(files[i]).Some? ==> Success(OutcomeOf(extract)(files[i]).value) == ProcessFile(files[i], extract)
    {
    }
  }
}
