/**
 * The CSV import of the `/upload` handler: the type and size gates, the
 * structural gates on the file text, the per-row loop with its three
 * counters and its `errors` list, and the final status tag. The uploaded
 * file is given in memory; storage faults other than the unique index come
 * from the environment, one optional fault per data line.
 */
module Upload {
  import opened Wrappers
  import opened Strings
  import opened Csv
  import opened RowRules
  import opened Users

  /** What the handler knows of the uploaded file: its declared MIME type,
      its original name, its size in bytes, and its text. */
  datatype UploadedFile = UploadedFile(mimetype: string, originalName: string, size: nat, content: string)

  /** The `upload=` tag of the redirect; `Success` carries the three counts it adds. */
  datatype UploadStatus =
    | NoFile | InvalidType | FileTooLarge | EmptyFile | InsufficientData | MissingColumns
    | Success(imported: nat, skipped: nat, errors: nat)
    | PartialSuccess | NoNewUsers

  /** Why a data line did not import: a failed row rule, a duplicate, or another storage error. */
  datatype RowProblem = Rejected(rule: Rejection) | DuplicateUser | DatabaseError(message: string)

  /** One entry of the `errors` list, `Line <line>: <problem>`. */
  datatype RowError = RowError(line: nat, problem: RowProblem)

  /** The handler's counters `importedCount`, `skippedCount`, `errorCount` and its `errors` list. */
  datatype Tally = Tally(imported: nat, skipped: nat, failed: nat, errors: seq<RowError>)

  datatype LineOutcome = Imported | Problem(problem: RowProblem)

  /** How one data line ended, with the stored rows after it. */
  datatype Step = Step(outcome: LineOutcome, users: seq<StoredUser>)

  /** The counters and the stored rows part-way through the pass. */
  datatype Progress = Progress(tally: Tally, users: seq<StoredUser>)

  /** What the handler ends with: the redirect status, the counters and the stored rows. */
  datatype UploadResult = UploadResult(status: UploadStatus, tally: Tally, users: seq<StoredUser>)

  const MaxSize := 5 * 1024 * 1024

  /** The counters before the first data line. */
  function NoRows(): Tally { Tally(0, 0, 0, []) }

  /** The type gate: a MIME type mentioning `text` or `csv`, or a name ending in `.csv`. */
  predicate AcceptableType(f: UploadedFile) {
    Contains(f.mimetype, "text") || Contains(f.mimetype, "csv") || EndsWith(f.originalName, ".csv")
  }

  /** `fileContent.split('\n').filter(line => line.trim())`: the lines that
      are numbered, the header being line 0. They are the non-blank parts of
      the text, each as often as it occurs and in their order. */
  function DataLines(content: string): (lines: seq<string>)
    ensures forall l | l in lines :: Trim(l) != []
    ensures forall l | l in Split(content, '\n') && Trim(l) != [] :: l in lines
  {
    NonBlank(Split(content, '\n'))
  }

  /** Line `m` is the `m`-th non-blank part of the text, and each non-blank
      part is kept as often as it occurs. */
  lemma DataLinesInOrder(content: string, l: string)
    ensures var parts, lines := Split(content, '\n'), DataLines(content);
      && |lines| == |Kept(parts)|
      && (forall m | 0 <= m < |lines| :: lines[m] == parts[Kept(parts)[m]])
      && multiset(lines)[l] == if Trim(l) != [] then multiset(parts)[l] else 0
  {
    NonBlankKeepsOrder(Split(content, '\n'));
    NonBlankCounts(Split(content, '\n'), l);
  }

  /** The header fields, each trimmed and lower-cased. */
  function Headers(line: string): (headers: seq<string>)
    ensures |headers| == |ParseLine(line)|
    ensures forall k | 0 <= k < |headers| :: headers[k] == ToLower(Trim(ParseLine(line)[k]))
    ensures forall k | 0 <= k < |headers| :: Trim(headers[k]) == headers[k] && ToLower(headers[k]) == headers[k]
  {
    var fields := ParseLine(line);
    seq(|fields|, k requires 0 <= k < |fields| => TrimLower(fields[k]))
  }

  /** A header line of plain column names gives those names, trimmed and
      lower-cased, in their order. */
  lemma HeadersOfPlainLine(names: seq<string>)
    requires |names| >= 1
    requires forall f <- names :: ',' !in f && '"' !in f
    ensures var headers := Headers(Join(names, ','));
      |headers| == |names| && forall k | 0 <= k < |names| :: headers[k] == ToLower(Trim(names[k]))
  {
    PlainRoundTrip(names);
  }

  function FaultAt(faults: seq<Option<string>>, i: nat): Option<string> {
    if i < |faults| then faults[i] else None
  }

  /** The row rules applied to the trimmed, tokenized data line. */
  function LineVerdict(line: string, nameIndex: nat, emailIndex: nat): Verdict {
    ValidateRow(ParseLine(Trim(line)), nameIndex, emailIndex)
  }

  /** What a data line does once the rules have spoken: a rejected row
      leaves the store alone; an accepted one is created, and the create's
      outcome is classified. Only an import adds a row. */
  function Admit(users: seq<StoredUser>, v: Verdict, fault: Option<string>): (r: Step)
    ensures r.outcome == Imported ==> |r.users| == |users| + 1 && r.users[..|users|] == users
    ensures r.outcome == Imported ==> v.Accept? && r.users == users + [StoredUser(v.name, NormalizeEmail(v.email))]
    ensures r.outcome != Imported ==> r.users == users
  {
    match v
    case Reject(rule) => Step(Problem(Rejected(rule)), users)
    case Accept(name, email) =>
      var created := Insert(users, name, email, fault);
      var o := match created.outcome
        case Created => Imported
        case UniqueConstraintError => Problem(DuplicateUser)
        case OtherError(message) => Problem(DatabaseError(message));
      Step(o, created.users)
  }

  /** A line is imported exactly when the rules accept it, no fault occurs
      and its normalised email is new; it is a duplicate exactly when the
      rules accept it, no fault occurs and its normalised email is already
      stored; afterwards an accepted, fault-free line's email is stored. */
  lemma AdmitClassification(users: seq<StoredUser>, v: Verdict, fault: Option<string>)
    ensures var r := Admit(users, v, fault);
      && (r.outcome == Imported <==> v.Accept? && fault == None && NormalizeEmail(v.email) !in Emails(users))
      && (r.outcome == Problem(DuplicateUser) <==> v.Accept? && fault == None && NormalizeEmail(v.email) in Emails(users))
      && (v.Accept? && fault == None ==> NormalizeEmail(v.email) in Emails(r.users))
      && (v.Reject? ==> r.outcome == Problem(Rejected(v.reason)))
      && (v.Accept? && fault.Some? ==> r.outcome == Problem(DatabaseError(fault.value)))
  {
  }

  /** An admitted row keeps the unique index and the normal form of the emails. */
  lemma AdmitKeepsIndex(users: seq<StoredUser>, v: Verdict, fault: Option<string>)
    requires UniqueEmails(users) && Normalized(users)
    ensures var after := Admit(users, v, fault).users;
      UniqueEmails(after) && Normalized(after)
  {
    if v.Accept? {
      InsertKeepsIndex(users, v.name, v.email, fault);
    }
  }

  /** The counter updates of the loop body: an import adds to `importedCount`;
      a duplicate adds to `skippedCount` and an entry; any other problem adds
      to `errorCount` and an entry. */
  function Record(t: Tally, i: nat, o: LineOutcome): Tally {
    match o
    case Imported => t.(imported := t.imported + 1)
    case Problem(p) =>
      if p == DuplicateUser then t.(skipped := t.skipped + 1, errors := t.errors + [RowError(i, p)])
      else t.(failed := t.failed + 1, errors := t.errors + [RowError(i, p)])
  }

  /** Each line moves exactly one counter by one: `importedCount` for an
      import, `skippedCount` for a duplicate, `errorCount` otherwise; a line
      that is not imported leaves its entry at the end of the list. */
  lemma RecordCounts(t: Tally, i: nat, o: LineOutcome)
    ensures var r := Record(t, i, o);
      && r.imported + r.skipped + r.failed == t.imported + t.skipped + t.failed + 1
      && r.imported == t.imported + (if o == Imported then 1 else 0)
      && r.skipped == t.skipped + (if o == Problem(DuplicateUser) then 1 else 0)
      && r.errors == if o == Imported then t.errors else t.errors + [RowError(i, o.problem)]
  {
  }

  /** The number of duplicate entries in an `errors` list. */
  function DuplicateCount(errors: seq<RowError>): (n: nat)
    ensures n <= |errors|
    decreases |errors|
  {
    if errors == [] then 0
    else DuplicateCount(errors[..|errors| - 1]) + (if errors[|errors| - 1].problem == DuplicateUser then 1 else 0)
  }

  /** The entries name lines in `lo .. hi-1`, in strictly increasing order: at most one entry per line. */
  predicate LinesIncreasing(errors: seq<RowError>, lo: int, hi: int) {
    && (forall m | 0 <= m < |errors| :: lo <= errors[m].line < hi)
    && (forall m, n | 0 <= m < n < |errors| :: errors[m].line < errors[n].line)
  }

  /** The counting invariant after data lines `1 .. k-1`: each line added to
      exactly one counter, each skipped or failed line left one entry, in
      line order, and the duplicates among them are the skipped lines. */
  predicate Consistent(t: Tally, k: int) {
    && t.imported + t.skipped + t.failed == k - 1
    && |t.errors| == t.skipped + t.failed
    && DuplicateCount(t.errors) == t.skipped
    && LinesIncreasing(t.errors, 1, k)
  }

  lemma RecordKeepsConsistent(t: Tally, k: nat, o: LineOutcome)
    requires Consistent(t, k)
    ensures Consistent(Record(t, k, o), k + 1)
  {
    var t' := Record(t, k, o);
    if o.Problem? {
      var e := t'.errors;
      assert e == t.errors + [RowError(k, o.problem)];
      assert e[..|e| - 1] == t.errors;
    }
  }

  /** One data line keeps the accounting: the tally stays consistent and
      the store grows by exactly the rows the tally counts as imported. */
  lemma StepAccounting(t: Tally, k: nat, o: LineOutcome, users: seq<StoredUser>,
                       store: seq<StoredUser>, after: seq<StoredUser>)
    requires Consistent(t, k)
    requires |store| == |users| + t.imported && store[..|users|] == users
    requires o == Imported ==> |after| == |store| + 1 && after[..|store|] == store
    requires o != Imported ==> after == store
    ensures Consistent(Record(t, k, o), k + 1)
    ensures |after| == |users| + Record(t, k, o).imported && after[..|users|] == users
  {
    RecordKeepsConsistent(t, k, o);
    if o == Imported {
      assert after[..|store|][..|users|] == after[..|users|];
    }
  }

  /** The verdicts of the rules on each line; the one of the header is never used. */
  function Verdicts(lines: seq<string>, nameIndex: nat, emailIndex: nat): (vs: seq<Verdict>)
    ensures |vs| == |lines|
  {
    seq(|lines|, k requires 0 <= k < |lines| => LineVerdict(lines[k], nameIndex, emailIndex))
  }

  /** The tally and the store after data lines `1 .. k-1`, whose verdicts are in `verdicts`,
      starting from the store `users`. */
  function ImportLines(verdicts: seq<Verdict>, k: nat, users: seq<StoredUser>,
                       faults: seq<Option<string>>): (r: Progress)
    requires 1 <= k <= |verdicts|
    decreases k, 0
  {
    if k == 1 then Progress(NoRows(), users) else AfterLine(verdicts, k - 1, users, faults)
  }

  /** The tally and the store once data line `k` has been handled as well. */
  function AfterLine(verdicts: seq<Verdict>, k: nat, users: seq<StoredUser>,
                     faults: seq<Option<string>>): (r: Progress)
    requires 1 <= k < |verdicts|
    decreases k, 1
  {
    var prev := ImportLines(verdicts, k, users, faults);
    var step := Admit(prev.users, verdicts[k], FaultAt(faults, k));
    Progress(Record(prev.tally, k, step.outcome), step.users)
  }

  /** The pass keeps the accounting: the tally is consistent and the store
      only grew, by the rows the tally counts as imported. */
  lemma {:induction false} ImportAccounting(verdicts: seq<Verdict>, k: nat, users: seq<StoredUser>,
                                            faults: seq<Option<string>>)
    requires 1 <= k <= |verdicts|
    ensures var r := ImportLines(verdicts, k, users, faults);
      && Consistent(r.tally, k)
      && |r.users| == |users| + r.tally.imported && r.users[..|users|] == users
    decreases k
  {
    if k > 1 {
      ImportAccounting(verdicts, k - 1, users, faults);
      var prev := ImportLines(verdicts, k - 1, users, faults);
      var step := Admit(prev.users, verdicts[k - 1], FaultAt(faults, k - 1));
      ImportLinesStep(verdicts, k - 1, users, faults);
      StepAccounting(prev.tally, k - 1, step.outcome, users, prev.users, step.users);
      assert ImportLines(verdicts, k, users, faults) == Progress(Record(prev.tally, k - 1, step.outcome), step.users);
    } else {
      assert ImportLines(verdicts, k, users, faults) == Progress(NoRows(), users);
    }
  }

  /** One more data line: the pass up to line `k` followed by line `k`. */
  lemma ImportLinesStep(verdicts: seq<Verdict>, k: nat, users: seq<StoredUser>, faults: seq<Option<string>>)
    requires 1 <= k < |verdicts|
    ensures var prev := ImportLines(verdicts, k, users, faults);
      var step := Admit(prev.users, verdicts[k], FaultAt(faults, k));
      ImportLines(verdicts, k + 1, users, faults) == Progress(Record(prev.tally, k, step.outcome), step.users)
  {
  }

  /** The redirect chosen after the loop. */
  function FinalStatus(t: Tally): (s: UploadStatus)
    ensures s.Success? <==> t.imported > 0
    ensures s.Success? ==> s == Success(t.imported, t.skipped, t.failed)
    ensures s == PartialSuccess <==> t.imported == 0 && t.failed > 0
    ensures s == NoNewUsers <==> t.imported == 0 && t.failed == 0
  {
    if t.imported > 0 then Success(t.imported, t.skipped, t.failed)
    else if t.failed > 0 then PartialSuccess
    else NoNewUsers
  }

  /** The whole handler: its status, its final tally and the store after it. */
  function UploadSpec(users: seq<StoredUser>, file: Option<UploadedFile>, faults: seq<Option<string>>)
    : (r: UploadResult)
    ensures Gated(r.status) ==> r.tally == NoRows() && r.users == users
    ensures !Gated(r.status) ==> r.status == FinalStatus(r.tally)
  {
    if file.None? then UploadResult(NoFile, NoRows(), users)
    else
      var f := file.value;
      if !AcceptableType(f) then UploadResult(InvalidType, NoRows(), users)
      else if f.size > MaxSize then UploadResult(FileTooLarge, NoRows(), users)
      else if Trim(f.content) == [] then UploadResult(EmptyFile, NoRows(), users)
      else
        var lines := DataLines(f.content);
        if |lines| < 2 then UploadResult(InsufficientData, NoRows(), users)
        else
          var headers := Headers(lines[0]);
          var nameIndex := IndexOf(headers, "name");
          var emailIndex := IndexOf(headers, "email");
          if nameIndex == -1 || emailIndex == -1 then UploadResult(MissingColumns, NoRows(), users)
          else
            var done := ImportLines(Verdicts(lines, nameIndex, emailIndex), |lines|, users, faults);
            UploadResult(FinalStatus(done.tally), done.tally, done.users)
  }

  /** The upload is stopped by one of the gates before any line is read. */
  predicate Gated(s: UploadStatus) {
    s.NoFile? || s.InvalidType? || s.FileTooLarge? || s.EmptyFile? || s.InsufficientData? || s.MissingColumns?
  }

  /** A file that gets past the type and size gates. */
  predicate Receivable(file: Option<UploadedFile>) {
    file.Some? && AcceptableType(file.value) && file.value.size <= MaxSize
  }

  /** A text that is not blank has at least one line that is not blank. */
  lemma SomeLineNotBlank(content: string)
    requires !IsBlank(content)
    ensures |DataLines(content)| >= 1
  {
    var parts := Split(content, '\n');
    if DataLines(content) == [] {
      forall p | p in parts ensures IsBlank(p) {
        assert p !in DataLines(content);
        TrimShape(p);
      }
      JoinBlank(parts, '\n');
    }
  }

  /** The gates in the order the handler applies them; the first that
      fires decides the status, and then no counter has moved and the
      store is as it was. */
  lemma UploadGates(users: seq<StoredUser>, file: Option<UploadedFile>, faults: seq<Option<string>>)
    ensures var r := UploadSpec(users, file, faults);
      && (r.status == NoFile <==> file.None?)
      && (r.status == InvalidType <==> file.Some? && !AcceptableType(file.value))
      && (r.status == FileTooLarge <==> file.Some? && AcceptableType(file.value) && file.value.size > MaxSize)
      && (r.status == EmptyFile <==> Receivable(file) && IsBlank(file.value.content))
      && (r.status == InsufficientData <==>
            Receivable(file) && !IsBlank(file.value.content) && |DataLines(file.value.content)| == 1)
      && (r.status == MissingColumns <==>
            Receivable(file) && !IsBlank(file.value.content) && |DataLines(file.value.content)| >= 2 &&
            var headers := Headers(DataLines(file.value.content)[0]);
            "name" !in headers || "email" !in headers)
      && (Gated(r.status) ==> r.tally == NoRows() && r.users == users)
  {
    if Receivable(file) {
      var content := file.value.content;
      TrimShape(content);
      if !IsBlank(content) {
        SomeLineNotBlank(content);
      }
    }
  }

  /** The pass keeps the unique index and the normal form of the stored emails. */
  lemma {:induction false} ImportKeepsIndex(verdicts: seq<Verdict>, k: nat,
                                            users: seq<StoredUser>, faults: seq<Option<string>>)
    requires 1 <= k <= |verdicts|
    requires UniqueEmails(users) && Normalized(users)
    ensures var after := ImportLines(verdicts, k, users, faults).users;
      UniqueEmails(after) && Normalized(after)
    decreases k
  {
    if k > 1 {
      ImportKeepsIndex(verdicts, k - 1, users, faults);
      var prev := ImportLines(verdicts, k - 1, users, faults);
      AdmitKeepsIndex(prev.users, verdicts[k - 1], FaultAt(faults, k - 1));
    }
  }

  /** Admitting a line never removes a stored email. */
  lemma AdmitGrows(users: seq<StoredUser>, v: Verdict, fault: Option<string>)
    ensures Emails(users) <= Emails(Admit(users, v, fault).users)
  {
  }

  lemma EmailStaysStoredStep(e: string, verdicts: seq<Verdict>, k: nat,
                             users: seq<StoredUser>, faults: seq<Option<string>>)
    requires 1 <= k < |verdicts|
    requires e in Emails(ImportLines(verdicts, k, users, faults).users)
    ensures e in Emails(ImportLines(verdicts, k + 1, users, faults).users)
  {
    var prev := ImportLines(verdicts, k, users, faults);
    ImportLinesStep(verdicts, k, users, faults);
    AdmitGrows(prev.users, verdicts[k], FaultAt(faults, k));
  }

  /** An email stored before line `j` is still stored before line `k`. */
  lemma {:induction false} EmailStaysStored(e: string, verdicts: seq<Verdict>, j: nat, k: nat,
                                            users: seq<StoredUser>, faults: seq<Option<string>>)
    requires 1 <= j <= k <= |verdicts|
    requires e in Emails(ImportLines(verdicts, j, users, faults).users)
    ensures e in Emails(ImportLines(verdicts, k, users, faults).users)
    decreases k
  {
    if j < k {
      EmailStaysStored(e, verdicts, j, k - 1, users, faults);
      EmailStaysStoredStep(e, verdicts, k - 1, users, faults);
    }
  }

  /** Line `k` is skipped as a duplicate: one more in `skippedCount`, one
      more entry, and the store unchanged. */
  predicate SkippedAt(verdicts: seq<Verdict>, k: nat, users: seq<StoredUser>,
                      faults: seq<Option<string>>)
    requires 1 <= k < |verdicts|
  {
    var before := ImportLines(verdicts, k, users, faults);
    var after := ImportLines(verdicts, k + 1, users, faults);
    && after.tally == before.tally.(skipped := before.tally.skipped + 1, errors := before.tally.errors + [RowError(k, DuplicateUser)])
    && after.users == before.users
  }

  /** An accepted, fault-free line whose normalised email is already stored is skipped. */
  lemma StoredEmailSkipped(verdicts: seq<Verdict>, k: nat, users: seq<StoredUser>,
                           faults: seq<Option<string>>)
    requires 1 <= k < |verdicts|
    requires var v := verdicts[k];
      v.Accept? && FaultAt(faults, k) == None &&
      NormalizeEmail(v.email) in Emails(ImportLines(verdicts, k, users, faults).users)
    ensures SkippedAt(verdicts, k, users, faults)
  {
    var prev := ImportLines(verdicts, k, users, faults);
    var v := verdicts[k];
    ImportLinesStep(verdicts, k, users, faults);
    AdmitClassification(prev.users, v, None);
  }

  /** An accepted, fault-free line whose email differs only in letter case
      from that of a user stored before the upload is skipped as a duplicate. */
  lemma ExistingUserSkipped(verdicts: seq<Verdict>, k: nat, x: nat,
                            users: seq<StoredUser>, faults: seq<Option<string>>)
    requires 1 <= k < |verdicts|
    requires Normalized(users) && x < |users|
    requires var v := verdicts[k];
      v.Accept? && FaultAt(faults, k) == None && ToLower(users[x].email) == ToLower(v.email)
    ensures SkippedAt(verdicts, k, users, faults)
  {
    var v := verdicts[k];
    NormalizedAt(users, x);
    SameUpToCase(users[x].email, v.email);
    EmailsHas(users, x);
    EmailStaysStored(users[x].email, verdicts, 1, k, users, faults);
    StoredEmailSkipped(verdicts, k, users, faults);
  }

  /** An accepted, fault-free line whose email differs only in letter case
      from that of an earlier accepted, fault-free line is skipped as a
      duplicate, whether the earlier line was imported or skipped itself. */
  lemma EarlierLineSkipped(verdicts: seq<Verdict>, j: nat, k: nat,
                           users: seq<StoredUser>, faults: seq<Option<string>>)
    requires 1 <= j < k < |verdicts|
    requires var w := verdicts[j];
      var v := verdicts[k];
      && w.Accept? && FaultAt(faults, j) == None
      && v.Accept? && FaultAt(faults, k) == None
      && ToLower(w.email) == ToLower(v.email)
    ensures SkippedAt(verdicts, k, users, faults)
  {
    var w := verdicts[j];
    var v := verdicts[k];
    var prev := ImportLines(verdicts, j, users, faults);
    ImportLinesStep(verdicts, j, users, faults);
    AdmitClassification(prev.users, w, None);
    EmailStaysStored(NormalizeEmail(w.email), verdicts, j + 1, k, users, faults);
    SameUpToCase(w.email, v.email);
    StoredEmailSkipped(verdicts, k, users, faults);
  }

  /** The accounting of a whole upload: when the lines are read, each data
      line is counted exactly once, the `errors` list has one entry per
      skipped or failed line, and the store grew by the imported rows only. */
  lemma UploadAccounting(users: seq<StoredUser>, file: Option<UploadedFile>, faults: seq<Option<string>>)
    ensures var r := UploadSpec(users, file, faults);
      !Gated(r.status) ==>
        && file.Some?
        && var lines := DataLines(file.value.content);
        && r.tally.imported + r.tally.skipped + r.tally.failed == |lines| - 1
        && |r.tally.errors| == r.tally.skipped + r.tally.failed
        && Consistent(r.tally, |lines|)
        && |r.users| == |users| + r.tally.imported && r.users[..|users|] == users
  {
    if Receivable(file) {
      var lines := DataLines(file.value.content);
      if |lines| >= 2 {
        var headers := Headers(lines[0]);
        var nameIndex, emailIndex := IndexOf(headers, "name"), IndexOf(headers, "email");
        if nameIndex >= 0 && emailIndex >= 0 {
          ImportAccounting(Verdicts(lines, nameIndex, emailIndex), |lines|, users, faults);
        }
      }
    }
  }

  /** An upload keeps the unique index and the normal form of the stored emails. */
  lemma UploadKeepsIndex(users: seq<StoredUser>, file: Option<UploadedFile>, faults: seq<Option<string>>)
    requires UniqueEmails(users) && Normalized(users)
    ensures var after := UploadSpec(users, file, faults).users;
      UniqueEmails(after) && Normalized(after)
  {
    if Receivable(file) {
      var lines := DataLines(file.value.content);
      if |lines| >= 2 {
        var headers := Headers(lines[0]);
        var nameIndex, emailIndex := IndexOf(headers, "name"), IndexOf(headers, "email");
        if nameIndex >= 0 && emailIndex >= 0 {
          ImportKeepsIndex(Verdicts(lines, nameIndex, emailIndex), |lines|, users, faults);
        }
      }
    }
  }

  lemma {:induction false} AllDuplicates(errors: seq<RowError>)
    requires DuplicateCount(errors) == |errors|
    ensures forall m | 0 <= m < |errors| :: errors[m].problem == DuplicateUser
    decreases |errors|
  {
    if errors != [] {
      var front := errors[..|errors| - 1];
      AllDuplicates(front);
      forall m | 0 <= m < |front| ensures errors[m].problem == DuplicateUser {
        assert errors[m] == front[m];
      }
    }
  }

  lemma {:induction false} LineAtLeast(errors: seq<RowError>, lo: int, hi: int, m: nat)
    requires LinesIncreasing(errors, lo, hi) && m < |errors|
    ensures errors[m].line >= lo + m
    decreases m
  {
    if m > 0 {
      LineAtLeast(errors, lo, hi, m - 1);
    }
  }

  lemma {:induction false} LineAtMost(errors: seq<RowError>, lo: int, hi: int, m: nat)
    requires LinesIncreasing(errors, lo, hi) && m < |errors|
    ensures errors[m].line <= hi - |errors| + m
    decreases |errors| - m
  {
    if m < |errors| - 1 {
      LineAtMost(errors, lo, hi, m + 1);
    }
  }

  /** `no-new-users` means that every data line was a duplicate: the store
      is unchanged and the `errors` list holds one duplicate entry for each
      data line, in order. */
  lemma NoNewUsersAllDuplicates(users: seq<StoredUser>, file: Option<UploadedFile>, faults: seq<Option<string>>)
    ensures var r := UploadSpec(users, file, faults);
      r.status == NoNewUsers ==>
        && file.Some?
        && r.users == users
        && |r.tally.errors| == |DataLines(file.value.content)| - 1
        && forall m | 0 <= m < |r.tally.errors| :: r.tally.errors[m] == RowError(m + 1, DuplicateUser)
  {
    var r := UploadSpec(users, file, faults);
    UploadAccounting(users, file, faults);
    if r.status == NoNewUsers {
      var e := r.tally.errors;
      var k := |DataLines(file.value.content)|;
      AllDuplicates(e);
      forall m | 0 <= m < |e| ensures e[m].line == m + 1 {
        LineAtLeast(e, 1, k, m);
        LineAtMost(e, 1, k, m);
      }
    }
  }

  /** The `User.create` call of data line `i` for a row the rules accepted,
      and how its outcome is counted: a new row adds to `importedCount`, the
      unique-constraint error to `skippedCount` and any other error to
      `errorCount`, each failure with its entry. */
  method CreateRow(repo: UserRepository, i: nat, name: string, email: string, fault: Option<string>, tally: Tally)
    returns (tally': Tally)
    requires repo.Valid()
    modifies repo
    ensures repo.Valid()
    ensures var step := Admit(old(repo.users), Accept(name, email), fault);
      tally' == Record(tally, i, step.outcome) && repo.users == step.users
  {
    ghost var step := Admit(repo.users, Accept(name, email), fault);
    var created := repo.Create(name, email, fault);
    assert repo.users == step.users;
    match created {
      case Created =>
        tally' := tally.(imported := tally.imported + 1);
        assert step.outcome == Imported;
      case UniqueConstraintError =>
        tally' := tally.(skipped := tally.skipped + 1, errors := tally.errors + [RowError(i, DuplicateUser)]);
        assert step.outcome == Problem(DuplicateUser);
      case OtherError(message) =>
        tally' := tally.(failed := tally.failed + 1, errors := tally.errors + [RowError(i, DatabaseError(message))]);
        assert step.outcome == Problem(DatabaseError(message));
    }
  }

  /** The body of the loop for data line `i`, the text `lines[i]`: a blank line
      is passed over; otherwise tokenize the trimmed line, apply the row
      rules, create the user when they pass, and count how the line ended in
      the counters and the `errors` list. */
  method ImportLine(repo: UserRepository, lines: seq<string>, i: nat, nameIndex: nat, emailIndex: nat,
                    faults: seq<Option<string>>, tally: Tally, ghost users: seq<StoredUser>)
    returns (tally': Tally)
    requires 1 <= i < |lines|
    requires repo.Valid()
    requires Progress(tally, repo.users) == ImportLines(Verdicts(lines, nameIndex, emailIndex), i, users, faults)
    modifies repo
    ensures repo.Valid()
    ensures Trim(lines[i]) == [] ==> tally' == tally && repo.users == old(repo.users)
    ensures Trim(lines[i]) != [] ==>
      Progress(tally', repo.users) == ImportLines(Verdicts(lines, nameIndex, emailIndex), i + 1, users, faults)
  {
    var line := lines[i];
    if Trim(line) == [] {
      return tally;
    }
    ghost var verdicts := Verdicts(lines, nameIndex, emailIndex);
    assert verdicts[i] == LineVerdict(line, nameIndex, emailIndex);
    ghost var step := Admit(repo.users, LineVerdict(line, nameIndex, emailIndex), FaultAt(faults, i));
    ImportLinesStep(verdicts, i, users, faults);
    assert ImportLines(verdicts, i + 1, users, faults) == Progress(Record(tally, i, step.outcome), step.users);
    var values := ParseCsvLine(Trim(line));
    match ValidateRow(values, nameIndex, emailIndex) {
      case Reject(rule) =>
        tally' := tally.(failed := tally.failed + 1, errors := tally.errors + [RowError(i, Rejected(rule))]);
        assert step.outcome == Problem(Rejected(rule));
      case Accept(name, email) =>
        tally' := CreateRow(repo, i, name, email, FaultAt(faults, i), tally);
    }
  }

  /** The loop over the data lines `1 .. |lines|-1`, creating users through
      `repo`; the tally holds the counters and the `errors` list. */
  method ImportRows(repo: UserRepository, lines: seq<string>, nameIndex: nat, emailIndex: nat,
                    faults: seq<Option<string>>) returns (tally: Tally)
    requires |lines| >= 1
    requires forall k | 0 <= k < |lines| :: Trim(lines[k]) != []
    requires repo.Valid()
    modifies repo
    ensures repo.Valid()
    ensures Progress(tally, repo.users) == ImportLines(Verdicts(lines, nameIndex, emailIndex), |lines|, old(repo.users), faults)
  {
    tally := NoRows();
    ghost var users := repo.users;
    ghost var verdicts := Verdicts(lines, nameIndex, emailIndex);
    assert ImportLines(verdicts, 1, users, faults) == Progress(NoRows(), users);
    var i := 1;
    while i < |lines|
      invariant 1 <= i <= |lines|
      invariant repo.Valid()
      invariant Progress(tally, repo.users) == ImportLines(verdicts, i, users, faults)
    {
      tally := ImportLine(repo, lines, i, nameIndex, emailIndex, faults, tally, users);
      i := i + 1;
    }
    assert i == |lines|;
    assert Progress(tally, repo.users) == ImportLines(verdicts, |lines|, users, faults);
  }

  /** The `/upload` handler from the received file on: the gates in order,
      then the pass over the data lines, then the status. */
  method HandleUpload(repo: UserRepository, file: Option<UploadedFile>, faults: seq<Option<string>>)
    returns (status: UploadStatus, tally: Tally)
    requires repo.Valid()
    modifies repo
    ensures repo.Valid()
    ensures UploadResult(status, tally, repo.users) == UploadSpec(old(repo.users), file, faults)
  {
    if file.None? {
      return NoFile, NoRows();
    }
    var f := file.value;
    if !Contains(f.mimetype, "text") && !Contains(f.mimetype, "csv") && !EndsWith(f.originalName, ".csv") {
      return InvalidType, NoRows();
    }
    if f.size > MaxSize {
      return FileTooLarge, NoRows();
    }
    if Trim(f.content) == [] {
      return EmptyFile, NoRows();
    }
    var lines := NonBlank(Split(f.content, '\n'));
    if |lines| < 2 {
      return InsufficientData, NoRows();
    }
    var headerFields := ParseCsvLine(lines[0]);
    var headers := seq(|headerFields|, k requires 0 <= k < |headerFields| => ToLower(Trim(headerFields[k])));
    assert headers == Headers(lines[0]);
    var nameIndex := IndexOf(headers, "name");
    var emailIndex := IndexOf(headers, "email");
    if nameIndex == -1 || emailIndex == -1 {
      return MissingColumns, NoRows();
    }
    tally := ImportRows(repo, lines, nameIndex, emailIndex, faults);
    if tally.imported > 0 {
      status := Success(tally.imported, tally.skipped, tally.failed);
    } else if tally.failed > 0 {
      status := PartialSuccess;
    } else {
      status := NoNewUsers;
    }
  }
}
