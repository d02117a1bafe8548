/**
 * The rules of the API layer (app/routes/api.py) that do not depend on
 * Flask: the upload extension check, how the skills list is stored in the
 * candidate's text column and read back, what process_resume_async writes
 * into a candidate along each of its paths, the evaluation gate and the CV
 * excerpt given to the chat. The database is a map from candidate id to
 * the candidate's columns, held by a CandidateStore; what the parser,
 * the file system and the database report is passed in.
 */
module Api {
  import opened Wrappers
  import opened Strings
  import Config

  // ---------------------------------------------------------------------
  // allowed_file
  // ---------------------------------------------------------------------

  /**
   * allowed_file: the name has a '.', and the text after the last '.',
   * lowercased, is an allowed extension.
   */
  function AllowedFile(filename: string, allowed: set<string>): (r: bool)
    ensures '.' !in filename ==> !r
    ensures r <==> exists i :: LastDotAt(filename, i) && Lower(filename[i + 1..]) in allowed
  {
    match LastIndexOf(filename, '.')
    case None => false
    case Some(i) =>
      AllowedAtLastDot(filename, allowed, i);
      Lower(filename[i + 1..]) in allowed
  }

  /** Whether a name is allowed is decided by the text after its last '.'. */
  lemma AllowedAtLastDot(filename: string, allowed: set<string>, i: nat)
    requires LastIndexOf(filename, '.') == Some(i)
    ensures (exists j :: LastDotAt(filename, j) && Lower(filename[j + 1..]) in allowed)
            <==> Lower(filename[i + 1..]) in allowed
  {
    assert LastDotAt(filename, i);
    LastDotUnique(filename, i);
  }

  /** s[i] is the last '.' of s: what rsplit('.', 1)[1] reads after. */
  predicate LastDotAt(s: string, i: int) {
    0 <= i < |s| && s[i] == '.' && '.' !in s[i + 1..]
  }

  /** Only one '.' has no '.' after it. */
  lemma LastDotUnique(s: string, i: nat)
    requires LastDotAt(s, i)
    ensures forall j :: LastDotAt(s, j) ==> j == i
  {
    forall j | 0 <= j < i && s[j] == '.' ensures '.' in s[j + 1..] {
      assert s[j + 1..][i - j - 1] == '.';
    }
    forall j | i < j < |s| ensures s[j] != '.' {
      assert s[j] == s[i + 1..][j - i - 1];
    }
  }

  /** With the default setting an upper-case extension is accepted. */
  lemma UpperCaseExtensionAllowed()
    ensures AllowedFile("cv.PDF", Config.AllowedExtensions(None))
  {
    Config.DefaultExtensions();
    var name := "cv.PDF";
    assert name[2] == '.' && '.' !in name[3..];
    assert Lower(name[3..]) == "pdf";
  }

  /** Only the last extension counts: a PDF name with ".exe" after it is refused. */
  lemma DoubleExtensionRefused()
    ensures !AllowedFile("cv.pdf.exe", Config.AllowedExtensions(None))
  {
    Config.DefaultExtensions();
    var name := "cv.pdf.exe";
    assert name[6] == '.' && '.' !in name[7..];
    LastDotUnique(name, 6);
    assert Lower(name[7..]) == "exe";
  }

  // ---------------------------------------------------------------------
  // The skills column
  // ---------------------------------------------------------------------

  /**
   * How process_resume_async stores the skills list: ','.join(skills) if
   * skills else ''. The column is empty exactly when the list is empty or
   * holds one empty name.
   */
  function StoreSkills(skills: seq<string>): (r: string)
    ensures r == "" <==> skills == [] || skills == [""]
  {
    if skills == [] then ""
    else
      JoinEmpty(skills, ',');
      Join(skills, ',')
  }

  /** A join is empty exactly when it joins one empty piece. */
  lemma JoinEmpty(parts: seq<string>, sep: char)
    requires parts != []
    ensures Join(parts, sep) == "" <==> parts == [""]
  {
    if |parts| > 1 {
      assert |Join(parts, sep)| >= 1;
    }
  }

  /**
   * How get_candidate_by_id reads the column back:
   * candidate.skills.split(',') if candidate.skills else [] (a NULL
   * column is None).
   */
  function LoadSkills(stored: Option<string>): (r: seq<string>)
    ensures r == [] <==> stored.None? || stored == Some("")
    ensures forall k :: 0 <= k < |r| ==> ',' !in r[k]
  {
    match stored
    case None => []
    case Some(s) => if s == "" then [] else Split(s, ',')
  }

  /** A list of comma-free names reads back as stored, unless it is one empty name. */
  lemma LoadStoredSkills(skills: seq<string>)
    requires skills != [""] && forall k :: 0 <= k < |skills| ==> ',' !in skills[k]
    ensures LoadSkills(Some(StoreSkills(skills))) == skills
  {
    if skills != [] {
      SplitJoin(skills, ',');
    }
  }

  /** Every column value is stored back as it was read. */
  lemma StoreLoadedSkills(stored: string)
    ensures StoreSkills(LoadSkills(Some(stored))) == stored
  {
    if stored != "" {
      JoinSplit(stored, ',');
    }
  }

  /** A name with a comma in it comes back as two names. */
  lemma CommaSplitsName()
    ensures LoadSkills(Some(StoreSkills(["Go", "C,C++"]))) == ["Go", "C", "C++"]
  {
    var stored := StoreSkills(["Go", "C,C++"]);
    assert stored == "Go,C,C++";
    SplitJoin(["Go", "C", "C++"], ',');
    assert Join(["Go", "C", "C++"], ',') == "Go,C,C++";
  }

  // ---------------------------------------------------------------------
  // The candidate record and process_resume_async
  // ---------------------------------------------------------------------

  /** The status column: 'pending', 'processing', 'processed' or 'error'. */
  datatype Status = Pending | Processing | Processed | Error

  /** The columns of a candidate that the API writes; None is a NULL column. */
  datatype Candidate = Candidate(
    resumePath: Option<string>,
    name: Option<string>,
    email: Option<string>,
    phone: Option<string>,
    education: Option<string>,
    experience: Option<string>,
    skills: Option<string>,
    resumeText: Option<string>,
    status: Status,
    errorMessage: Option<string>)

  /** Candidate(resume_path=..., status='processing') before anything is parsed. */
  function NewCandidate(path: string): (c: Candidate)
    ensures c.status == Processing && c.resumePath == Some(path) && c.errorMessage.None?
  {
    Candidate(Some(path), None, None, None, None, None, None, None, Processing, None)
  }

  /**
   * The dict the parser returns: its text entries, and its skills list
   * when it has one.
   */
  datatype ParsedData = ParsedData(fields: map<string, string>, skills: Option<seq<string>>)

  /** `not parsed_data`: the dict has no entry at all. */
  predicate IsEmpty(data: ParsedData) {
    data.fields == map[] && data.skills.None?
  }

  /** parsed_data.get(key, default) for a text entry. */
  function Get(data: ParsedData, key: string, default: string): (r: string)
    ensures key !in data.fields ==> r == default
    ensures key in data.fields ==> r == data.fields[key]
  {
    if key in data.fields then data.fields[key] else default
  }

  /** What the parse step reports: a dict, or the message of the exception it raised. */
  datatype ParseOutcome = Returned(data: ParsedData) | Raised(message: string)

  const FailedToParse := "Failed to parse resume"
  const UpdatePrefix := "Error updating data: "

  /** str(FileNotFoundError(...)) raised when the resume file is gone. */
  function FileNotFoundMessage(path: string): string {
    "Resume file not found: " + path
  }

  /** The message the upload route stores when the worker thread cannot be started. */
  const StartFailedMessage := "L\U{1ED7}i khi x\U{1EED} l\U{FD} CV. Vui l\U{F2}ng th\U{1EED} l\U{1EA1}i."

  /**
   * The candidate after the success path: the text columns from the dict
   * with their defaults, then the skills column; an exception raised while
   * updating (updateError) leaves the columns assigned before it and marks
   * the candidate as failed.
   */
  function Updated(c: Candidate, data: ParsedData, updateError: Option<string>): (r: Candidate)
  {
    var c1 := c.(name := Some(Get(data, "name", "Unknown")),
                 email := Some(Get(data, "email", "")),
                 phone := Some(Get(data, "phone", "")),
                 education := Some(Get(data, "education", "")),
                 experience := Some(Get(data, "experience", "")));
    match updateError
    case Some(e) => c1.(status := Error, errorMessage := Some(UpdatePrefix + e))
    case None =>
      var skills := match data.skills case None => [] case Some(xs) => xs;
      c1.(skills := Some(StoreSkills(skills)), resumeText := Some(Get(data, "raw_text", "")),
          status := Processed, errorMessage := None)
  }

  /** The error that ends process_resume_async before the update, if any. */
  function EarlyFailure(path: string, fileExists: bool, parsed: ParseOutcome): (r: Option<string>)
    ensures !fileExists ==> r == Some(FileNotFoundMessage(path))
    ensures fileExists && parsed.Raised? ==> r == Some(parsed.message)
    ensures r.None? <==> fileExists && parsed.Returned? && !IsEmpty(parsed.data)
  {
    if !fileExists then Some(FileNotFoundMessage(path))
    else match parsed
      case Raised(e) => Some(e)
      case Returned(data) => if IsEmpty(data) then Some(FailedToParse) else None
  }

  /** The candidate after process_resume_async, by the path it takes. */
  function AfterProcessing(c: Candidate, path: string, fileExists: bool, parsed: ParseOutcome,
                           updateError: Option<string>): (r: Candidate)
  {
    match EarlyFailure(path, fileExists, parsed)
    case Some(e) => c.(status := Error, errorMessage := Some(e))
    case None => Updated(c, parsed.data, updateError)
  }

  /**
   * process_resume_async ends in 'processed' with no error message when
   * every step succeeds, and otherwise in 'error' with a message.
   */
  lemma ProcessingEndsSettled(c: Candidate, path: string, fileExists: bool, parsed: ParseOutcome,
                              updateError: Option<string>)
    ensures var r := AfterProcessing(c, path, fileExists, parsed, updateError);
      (r.status == Processed <==> fileExists && parsed.Returned? && !IsEmpty(parsed.data) && updateError.None?)
      && (r.status == Processed ==> r.errorMessage.None?)
      && (r.status != Processed ==> r.status == Error && r.errorMessage.Some?)
  {
  }

  /** A failure before the update changes only the status and the error message. */
  lemma EarlyFailureKeepsColumns(c: Candidate, path: string, fileExists: bool, parsed: ParseOutcome,
                                 updateError: Option<string>)
    requires EarlyFailure(path, fileExists, parsed).Some?
    ensures AfterProcessing(c, path, fileExists, parsed, updateError)
      == c.(status := Error, errorMessage := EarlyFailure(path, fileExists, parsed))
  {
  }

  /**
   * On success the entries the parser left out take their defaults:
   * 'Unknown' for the name, '' for the other text columns and the CV text,
   * and '' for the skills.
   */
  lemma MissingEntriesDefault(c: Candidate, path: string, data: ParsedData)
    requires !IsEmpty(data)
    ensures var r := AfterProcessing(c, path, true, Returned(data), None);
      ("name" !in data.fields ==> r.name == Some("Unknown"))
      && ("email" !in data.fields ==> r.email == Some(""))
      && ("phone" !in data.fields ==> r.phone == Some(""))
      && ("education" !in data.fields ==> r.education == Some(""))
      && ("experience" !in data.fields ==> r.experience == Some(""))
      && ("raw_text" !in data.fields ==> r.resumeText == Some(""))
      && (data.skills.None? ==> r.skills == Some(""))
  {
  }

  /** A failed update keeps the columns assigned before the exception, and no skills or CV text. */
  lemma FailedUpdateKeepsEarlierColumns(c: Candidate, path: string, data: ParsedData, e: string)
    requires !IsEmpty(data)
    ensures var r := AfterProcessing(c, path, true, Returned(data), Some(e));
      r.name == Some(Get(data, "name", "Unknown")) && r.skills == c.skills && r.resumeText == c.resumeText
      && r.status == Error && r.errorMessage == Some(UpdatePrefix + e)
  {
  }

  /** evaluate_resume goes on only for a candidate whose status is 'processed'. */
  predicate CanEvaluate(c: Candidate) {
    c.status == Processed
  }

  /** Only a run whose every step succeeded makes the candidate ready for evaluation. */
  lemma EvaluateAfterProcessing(c: Candidate, path: string, fileExists: bool, parsed: ParseOutcome,
                                updateError: Option<string>)
    ensures CanEvaluate(AfterProcessing(c, path, fileExists, parsed, updateError))
      <==> fileExists && parsed.Returned? && !IsEmpty(parsed.data) && updateError.None?
  {
    ProcessingEndsSettled(c, path, fileExists, parsed, updateError);
  }

  /** The candidates table, with the updates the upload route and process_resume_async make. */
  class CandidateStore {
    var rows: map<nat, Candidate>
    /** The id the next new row gets, as the table's autoincrement hands them out. */
    var nextId: nat

    /** Every row's id was handed out before nextId. */
    predicate Valid()
      reads this
    {
      forall id :: id in rows ==> id < nextId
    }

    constructor()
      ensures Valid() && rows == map[]
    {
      rows := map[];
      nextId := 1;
    }

    /** The upload route's Candidate(resume_path=file_path, status='processing') with a fresh id. */
    method Create(path: string) returns (id: nat)
      requires Valid()
      modifies this
      ensures Valid()
      ensures id !in old(rows) && rows == old(rows)[id := NewCandidate(path)]
    {
      id := nextId;
      rows := rows[id := NewCandidate(path)];
      nextId := nextId + 1;
    }

    /** The upload route when the worker thread cannot be started. */
    method MarkStartFailed(id: nat)
      requires Valid() && id in rows
      modifies this
      ensures Valid() && nextId == old(nextId)
      ensures rows == old(rows)[id := old(rows)[id].(status := Error, errorMessage := Some(StartFailedMessage))]
    {
      var c := rows[id];
      c := c.(status := Error);
      c := c.(errorMessage := Some(StartFailedMessage));
      rows := rows[id := c];
    }

    /**
     * The table updates of the upload route once the file is saved: a new
     * row, marked failed when the worker thread cannot be started.
     */
    method Upload(path: string, threadStarts: bool) returns (id: nat)
      requires Valid()
      modifies this
      ensures Valid()
      ensures id !in old(rows)
      ensures rows == old(rows)[id := if threadStarts then NewCandidate(path)
                                      else NewCandidate(path).(status := Error, errorMessage := Some(StartFailedMessage))]
    {
      id := Create(path);
      if !threadStarts {
        MarkStartFailed(id);
      }
    }

    /**
     * process_resume_async for the candidate with this id. A candidate that
     * is not in the table is left alone on every path.
     */
    method ProcessResume(id: nat, path: string, fileExists: bool, parsed: ParseOutcome, updateError: Option<string>)
      requires Valid()
      modifies this
      ensures Valid() && nextId == old(nextId)
      ensures id !in old(rows) ==> rows == old(rows)
      ensures id in old(rows) ==>
                rows == old(rows)[id := AfterProcessing(old(rows)[id], path, fileExists, parsed, updateError)]
    {
      var failure: Option<string> := None;
      if !fileExists {
        failure := Some(FileNotFoundMessage(path));
      } else if parsed.Raised? {
        failure := Some(parsed.message);
      } else if IsEmpty(parsed.data) {
        failure := Some(FailedToParse);
      }
      if failure.Some? {
        if id in rows {
          var c := rows[id];
          c := c.(status := Error);
          c := c.(errorMessage := failure);
          rows := rows[id := c];
        }
        return;
      }
      if id !in rows {
        return;
      }
      var data := parsed.data;
      var c := rows[id];
      c := c.(name := Some(Get(data, "name", "Unknown")));
      c := c.(email := Some(Get(data, "email", "")));
      c := c.(phone := Some(Get(data, "phone", "")));
      c := c.(education := Some(Get(data, "education", "")));
      c := c.(experience := Some(Get(data, "experience", "")));
      if updateError.Some? {
        c := c.(status := Error);
        c := c.(errorMessage := Some(UpdatePrefix + updateError.value));
      } else {
        var skills := if data.skills.Some? then data.skills.value else [];
        c := c.(skills := Some(StoreSkills(skills)));
        c := c.(resumeText := Some(Get(data, "raw_text", "")));
        c := c.(status := Processed);
        c := c.(errorMessage := None);
      }
      rows := rows[id := c];
    }
  }

  // ---------------------------------------------------------------------
  // The chat context
  // ---------------------------------------------------------------------

  /**
   * The CV text the chat context quotes for a candidate: resume_text[:500]
   * when the column holds text, nothing when it is NULL or empty.
   */
  function CvExcerpt(resumeText: Option<string>): (r: Option<string>)
    ensures r.None? <==> resumeText.None? || resumeText == Some("")
    ensures r.Some? ==> |r.value| == (if |resumeText.value| < 500 then |resumeText.value| else 500)
                        && r.value == resumeText.value[..|r.value|]
  {
    match resumeText
    case None => None
    case Some(t) =>
      if t == "" then None
      else if |t| <= 500 then Some(t)
      else Some(t[..500])
  }
}
