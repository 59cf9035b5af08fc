/**
  `extract_patient_info` (Medical_reports.py:92-100): the model's reply is
  stripped and split on newlines, and the fields are taken by position —
  line 0 the name, line 1 the sex, line 2 the age, the rest the summary —
  with a default for every line that is missing. It never fails.
 */
module Extraction {
  import opened Text

  /** The four fields as extracted, all still text. */
  datatype Fields = Fields(name: string, sex: string, age: string, summary: string)

  /** The lines of the stripped reply. */
  function ReplyLines(reply: string): seq<string> {
    Split(Strip(reply), '\n')
  }

  /** `extract_patient_info`. Every field comes out stripped; a field whose
      line is missing (there are fewer newlines in the stripped reply than its
      position) takes its default: "Unknown" for the sex, "0" for the age and
      "" for the summary. */
  function Extract(reply: string): (f: Fields)
    ensures IsStripped(f.name) && IsStripped(f.sex) && IsStripped(f.age) && IsStripped(f.summary)
    ensures Count(Strip(reply), '\n') < 1 ==> f.sex == "Unknown"
    ensures Count(Strip(reply), '\n') < 2 ==> f.age == "0"
    ensures Count(Strip(reply), '\n') < 3 ==> f.summary == ""
  {
    var lines := ReplyLines(reply);
    assert IsStripped("Unknown") && IsStripped("0") && IsStripped("");
    Fields(
      if |lines| > 0 then Strip(lines[0]) else "Unknown",
      if |lines| > 1 then Strip(lines[1]) else "Unknown",
      if |lines| > 2 then Strip(lines[2]) else "0",
      if |lines| > 3 then Strip(Join(lines[3..], "\n")) else "")
  }

  /** The text of `s` up to its first newline. */
  function FirstLine(s: string): string {
    s[..LineEnd(s, '\n')]
  }

  /** The fields in terms of the stripped reply's text: the name is its first
      line, stripped, whatever the reply (the "Unknown" default for the name is
      never used); the sex and age are its second and third lines, stripped,
      when there are such lines; and the summary is all the text after its
      third line, stripped ("" when there is none). */
  lemma ExtractByLines(reply: string)
    ensures var t := Strip(reply); var f := Extract(reply);
      f.name == Strip(FirstLine(t))
      && (Count(t, '\n') >= 1 ==> f.sex == Strip(FirstLine(DropLines(t, '\n', 1))))
      && (Count(t, '\n') >= 2 ==> f.age == Strip(FirstLine(DropLines(t, '\n', 2))))
      && f.summary == Strip(DropLines(t, '\n', 3))
  {
    var t := Strip(reply);
    var n := Count(t, '\n');
    SplitAt(t, '\n', 0);
    if n >= 1 {
      SplitAt(t, '\n', 1);
    }
    if n >= 2 {
      SplitAt(t, '\n', 2);
    }
    if n >= 3 {
      JoinSplitFrom(t, '\n', 3);
    } else {
      DropLinesPastEnd(t, '\n', 3);
    }
  }

  /** Dropping more lines than there are leaves nothing. */
  lemma {:induction false} DropLinesPastEnd(s: string, c: char, k: nat)
    requires k > Count(s, c)
    ensures DropLines(s, c, k) == []
  {
    if LineEnd(s, c) < |s| {
      SplitRest(s, c);
      DropLinesPastEnd(Rest(s, c), c, k - 1);
    }
  }

  /** The reply the extraction expects: name, sex, age and summary, one after
      the other on their own lines. */
  function Reply(f: Fields): string {
    Join([f.name, f.sex, f.age, f.summary], "\n")
  }

  /** Extraction reads back the fields of a reply in the expected layout, as
      long as the name and summary are not empty, no field has whitespace at
      either end, and the first three fields fit on one line each. */
  lemma ExtractReply(f: Fields)
    requires f.name != [] && f.summary != []
    requires IsStripped(f.name) && IsStripped(f.sex) && IsStripped(f.age) && IsStripped(f.summary)
    requires Lacks(f.name, '\n') && Lacks(f.sex, '\n') && Lacks(f.age, '\n')
    ensures Extract(Reply(f)) == f
  {
    var lines := ReplyLines(Reply(f));
    ReplySplits(f);
    assert |lines| > 3 && lines[0] == f.name && lines[1] == f.sex && lines[2] == f.age;
    assert lines[3..] == Split(f.summary, '\n');
    JoinSplit(f.summary, '\n');
    assert Join(lines[3..], "\n") == f.summary;
    StripStripped(f.name);
    StripStripped(f.sex);
    StripStripped(f.age);
    StripStripped(f.summary);
    ExtractFourLines(Reply(f));
  }

  /** With at least four lines every field is read from its line. */
  lemma ExtractFourLines(reply: string)
    requires |ReplyLines(reply)| > 3
    ensures var lines := ReplyLines(reply);
      Extract(reply) == Fields(Strip(lines[0]), Strip(lines[1]), Strip(lines[2]), Strip(Join(lines[3..], "\n")))
  {
  }

  /** A reply in the expected layout is already stripped, and its lines are
      the name, the sex, the age and then the summary's own lines. */
  lemma ReplySplits(f: Fields)
    requires f.name != [] && f.summary != []
    requires IsStripped(f.name) && IsStripped(f.summary)
    requires Lacks(f.name, '\n') && Lacks(f.sex, '\n') && Lacks(f.age, '\n')
    ensures ReplyLines(Reply(f)) == [f.name, f.sex, f.age] + Split(f.summary, '\n')
  {
    var parts := [f.name, f.sex, f.age, f.summary];
    var r := Reply(f);
    assert IsStripped(r) by {
      JoinEnds(parts, "\n");
      assert r[..|f.name|] == f.name;
      assert r[|r| - |f.summary|..] == f.summary;
      assert r[0] == f.name[0];
      assert r[|r| - 1] == f.summary[|f.summary| - 1];
    }
    StripStripped(r);
    SplitJoinFront(parts, '\n');
    assert parts[..3] == [f.name, f.sex, f.age];
  }
}
