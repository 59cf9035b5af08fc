/**
  `process_pdf_and_generate_summary` (Medical_reports.py:31-87) with its
  collaborators made explicit: the OCR reply is an input, the chat model is a
  function from prompt to reply, and the two files it writes are returned as
  values — the markdown file always, the structured record only when
  validation succeeds.
 */
module Pipeline {
  import opened Wrappers
  import opened Text
  import opened Assembly
  import opened Extraction
  import opened Validation

  /** What one run produces: the markdown file's contents, the prompt sent, the
      reply received, and the record written to `<stem>_structured.json`, or
      None when validation failed and nothing was written. */
  datatype Run = Run(markdownFile: string, prompt: string, reply: string, structured: Option<PatientInfo>)

  /** Turns a validated record or a validation error into what is written. */
  function Written(r: Result<PatientInfo, ValidationError>): Option<PatientInfo> {
    match r
      case Ok(record) => Some(record)
      case Err(_) => None
  }

  /** One run on one document. The markdown file is written whatever happens
      later; the prompt carries the kept pages joined by newlines; the record
      is written exactly when the extracted age holds a digit run short
      enough for `int()`, and then holds the extracted name, sex and summary
      unchanged. */
  method ProcessReport(documentName: string, response: OcrResponse, complete: string -> string)
    returns (run: Run)
    ensures run.markdownFile == MarkdownArtifact(documentName, KeptBlocks(response))
    ensures run.prompt == Prompt(PromptText(KeptBlocks(response)))
    ensures run.reply == complete(run.prompt)
    ensures run.structured.None? <==> NoDigit(Extract(run.reply).age) || TooManyDigits(Extract(run.reply).age)
    ensures run.structured.Some? ==>
      var f := Extract(run.reply);
      run.structured.value.name == f.name && run.structured.value.sex == f.sex
      && run.structured.value.summary == f.summary
      && run.structured.value.age >= 0 && CoerceAge(f.age) == Ok(run.structured.value.age)
  {
    var blocks := AssembleBlocks(response);
    var markdownFile := MarkdownArtifact(documentName, blocks);
    var prompt := Prompt(PromptText(blocks));
    var reply := complete(prompt);
    var fields := Extract(reply);
    var record := BuildRecord(fields.name, fields.sex, fields.age, fields.summary);
    run := Run(markdownFile, prompt, reply, Written(record));
  }

  /** A reply of fewer than three lines never fails validation: the age takes
      its default "0", so the record holds age 0 and an empty summary. */
  lemma ShortReplyGivesAgeZero(reply: string)
    requires Count(Strip(reply), '\n') < 2
    ensures var f := Extract(reply);
      BuildRecord(f.name, f.sex, f.age, f.summary) == Ok(PatientInfo(f.name, f.sex, 0, ""))
  {
    assert "" + DecimalString(0) + "" == "0";
    CoerceEmbeddedNumber("", 0, "");
  }

  /** A reply laid out as name, sex, `str(n)` and summary lines, whose name
      and summary are non-empty, with no whitespace at either end of the
      name, sex and summary and no newline in the name and sex, yields the
      record of those fields with age `n`, unless `str(n)` is too long for
      `int()`. */
  lemma RecordFromReply(f: Fields, n: nat)
    requires f.name != [] && f.summary != []
    requires IsStripped(f.name) && IsStripped(f.sex) && IsStripped(f.summary)
    requires Lacks(f.name, '\n') && Lacks(f.sex, '\n')
    ensures var g := Extract(Reply(Fields(f.name, f.sex, DecimalString(n), f.summary)));
      BuildRecord(g.name, g.sex, g.age, g.summary) ==
        if |DecimalString(n)| > IntMaxStrDigits then Err(AgeTooManyDigits(DecimalString(n)))
        else Ok(PatientInfo(f.name, f.sex, n, f.summary))
  {
    var e := Fields(f.name, f.sex, DecimalString(n), f.summary);
    DecimalStringIsOneWord(n);
    ExtractReply(e);
    CoerceDecimal(n);
  }

  /** The decimal form of a number has no whitespace and no newline. */
  lemma DecimalStringIsOneWord(n: nat)
    ensures IsStripped(DecimalString(n)) && Lacks(DecimalString(n), '\n')
  {
    var d := DecimalString(n);
    assert IsDigit(d[0]) && IsDigit(d[|d| - 1]);
    assert forall k :: 0 <= k < |d| ==> IsDigit(d[k]);
  }

  /** The worked example of a two-page scan whose first page is empty: the
      markdown file holds only the second page, right after the header. */
  lemma TwoPageMarkdown()
    ensures var pages := [Page(Some("")), Page(Some("Patient: John\nMale\n45\nHeadache"))];
      MarkdownArtifact("report.pdf", KeptBlocks(OcrResponse(Some(pages))))
        == Header("report.pdf") + "Patient: John\nMale\n45\nHeadache"
  {
    var text := "Patient: John\nMale\n45\nHeadache";
    TwoPageBlocks(text);
    assert Join([text], Divider) == text;
  }

  /** An empty page followed by a page of non-empty stripped text keeps that
      text alone. */
  lemma TwoPageBlocks(text: string)
    requires text != [] && IsStripped(text)
    ensures Kept([Page(Some("")), Page(Some(text))]) == [text]
  {
    StripStripped(text);
    KeptSingle(Page(Some("")));
    KeptSingle(Page(Some(text)));
    KeptAppend([Page(Some(""))], [Page(Some(text))]);
    assert [Page(Some("")), Page(Some(text))] == [Page(Some(""))] + [Page(Some(text))];
  }

  /** The reply of the same example, "John\nMale\n45\nHeadache", gives the
      record {name: John, sex: Male, age: 45, summary: Headache}. */
  lemma TwoPageRecord()
    ensures var f := Extract("John\nMale\n45\nHeadache");
      BuildRecord(f.name, f.sex, f.age, f.summary) == Ok(PatientInfo("John", "Male", 45, "Headache"))
  {
    ExampleReply();
    ExampleFieldsOneLine();
    RecordFromReply(Fields("John", "Male", "", "Headache"), 45);
  }

  /** The example reply is the layout `Reply` writes. */
  lemma ExampleReply()
    ensures Reply(Fields("John", "Male", DecimalString(45), "Headache")) == "John\nMale\n45\nHeadache"
  {
    ExampleAge();
    ExampleTail();
  }

  /** `str(45)` is "45". */
  lemma ExampleAge()
    ensures DecimalString(45) == "45"
  {
    assert DecimalString(4) == "4";
  }

  /** The last three lines of the example reply. */
  lemma ExampleTail()
    ensures Join(["Male", "45", "Headache"], "\n") == "Male\n45\nHeadache"
  {
    assert Join(["45", "Headache"], "\n") == "45\nHeadache";
  }

  /** The example's name, sex and summary are single stripped words. */
  lemma ExampleFieldsOneLine()
    ensures IsStripped("John") && IsStripped("Male") && IsStripped("Headache")
    ensures Lacks("John", '\n') && Lacks("Male", '\n')
  {
  }
}
