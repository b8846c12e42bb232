/**
 * The call transcript and save_report: one file per call, named after the
 * minute the call was saved, holding a header line, a blank line and one
 * "Role: content" line per message.  The clock and the file system are not
 * modelled: the time is a parameter and the file is returned as a value.
 */
module Report {
  import opened Wrappers
  import opened Text
  import opened Seqs

  /** The two roles the conversation records; the source stores their names. */
  datatype Role = User | Assistant {
    function Name(): string {
      match this
      case User => "user"
      case Assistant => "assistant"
    }
  }

  datatype Message = Message(role: Role, content: string)

  /** The wall-clock minute at which save_report runs. */
  datatype Timestamp = Timestamp(year: nat, month: nat, day: nat, hour: nat, minute: nat)

  /** The fields a datetime can hold that %Y prints as four digits. */
  predicate ValidTimestamp(t: Timestamp) {
    1000 <= t.year <= 9999 && 1 <= t.month <= 12 && 1 <= t.day <= 31 && t.hour < 24 && t.minute < 60
  }

  predicate IsDigit(c: char) {
    '0' <= c <= '9'
  }

  function Digit(d: nat): (c: char)
    requires d < 10
    ensures IsDigit(c)
  {
    ('0' as int + d) as char
  }

  /** n in decimal, zero-padded (or cut) to width digits, as strftime's
      %Y, %m, %d, %H and %M print their fields. */
  function Pad(n: nat, width: nat): (r: string)
    ensures |r| == width
    ensures forall k :: 0 <= k < |r| ==> IsDigit(r[k])
  {
    if width == 0 then [] else Pad(n / 10, width - 1) + [Digit(n % 10)]
  }

  function Pow10(w: nat): (p: nat)
    ensures p > 0
  {
    if w == 0 then 1 else 10 * Pow10(w - 1)
  }

  function DigitValue(c: char): nat
    requires IsDigit(c)
  {
    c as int - '0' as int
  }

  /** The number a string of decimal digits denotes. */
  function DigitsValue(s: string): nat
    requires forall k :: 0 <= k < |s| ==> IsDigit(s[k])
  {
    if s == [] then 0 else DigitsValue(s[..|s| - 1]) * 10 + DigitValue(s[|s| - 1])
  }

  /** Reading the padded digits back gives the number: padding loses nothing
      for a number that fits the width. */
  lemma {:induction false} PadValue(n: nat, width: nat)
    requires n < Pow10(width)
    ensures DigitsValue(Pad(n, width)) == n
  {
    if width > 0 {
      var q, d := n / 10, n % 10;
      assert n == q * 10 + d;
      assert q < Pow10(width - 1);
      PadValue(q, width - 1);
      var r := Pad(n, width);
      assert r == Pad(q, width - 1) + [Digit(d)];
      assert r[..|r| - 1] == Pad(q, width - 1);
      assert DigitValue(r[|r| - 1]) == d;
    }
  }

  lemma {:induction false} PadInjective(a: nat, b: nat, width: nat)
    requires a < Pow10(width) && b < Pow10(width)
    requires Pad(a, width) == Pad(b, width)
    ensures a == b
  {
    PadValue(a, width);
    PadValue(b, width);
  }

  /** The minute as year-month-day hour:minute, zero-padded to 4, 2, 2, 2
      and 2 digits. */
  function FormatTimestamp(t: Timestamp): (r: string)
    ensures |r| == 16
  {
    Pad(t.year, 4) + "-" + Pad(t.month, 2) + "-" + Pad(t.day, 2) + " " + Pad(t.hour, 2) + ":" + Pad(t.minute, 2)
  }

  const ReportsDir: string := "incident_reports"

  /** The report path: the reports folder, then "incident_report_", the
      timestamp with every colon turned into a dash, and ".txt". */
  function FileName(t: Timestamp): string {
    ReportsDir + "/incident_report_" + ReplaceChar(FormatTimestamp(t), ':', '-') + ".txt"
  }

  /** The file-name part of the timestamp: ':' became '-', and every field
      still sits at its fixed position. */
  lemma {:induction false} StampFields(t: Timestamp)
    ensures var f := ReplaceChar(FormatTimestamp(t), ':', '-');
      && |f| == 16 && f[..4] == Pad(t.year, 4) && f[5..7] == Pad(t.month, 2) && f[8..10] == Pad(t.day, 2)
      && f[11..13] == Pad(t.hour, 2) && f[14..16] == Pad(t.minute, 2)
  {
    var s := FormatTimestamp(t);
    assert s[..4] == Pad(t.year, 4) && s[5..7] == Pad(t.month, 2) && s[8..10] == Pad(t.day, 2);
    assert s[11..13] == Pad(t.hour, 2) && s[14..16] == Pad(t.minute, 2);
    DigitsKept(s, 0, 4);
    DigitsKept(s, 5, 7);
    DigitsKept(s, 8, 10);
    DigitsKept(s, 11, 13);
    DigitsKept(s, 14, 16);
  }

  /** Replacing ':' leaves a run of digits as it was. */
  lemma {:induction false} DigitsKept(s: string, i: nat, j: nat)
    requires i <= j <= |s|
    requires forall k :: 0 <= k < j - i ==> IsDigit(s[i..j][k])
    ensures ReplaceChar(s, ':', '-')[i..j] == s[i..j]
  {
    var r := ReplaceChar(s, ':', '-');
    forall k | 0 <= k < j - i ensures r[i..j][k] == s[i..j][k] {
      assert r[i + k] == (if s[i + k] == ':' then '-' else s[i + k]);
      assert IsDigit(s[i + k]);
    }
  }

  lemma {:induction false} MiddleSlice(a: string, f: string, b: string)
    ensures (a + f + b)[|a|..|a| + |f|] == f
  {
  }

  /** The file name keeps every field of the timestamp: two saves share a
      file exactly when they fall in the same minute. */
  lemma {:induction false} FileNameInjective(a: Timestamp, b: Timestamp)
    requires ValidTimestamp(a) && ValidTimestamp(b)
    ensures FileName(a) == FileName(b) <==> a == b
  {
    if FileName(a) == FileName(b) {
      var fa, fb := ReplaceChar(FormatTimestamp(a), ':', '-'), ReplaceChar(FormatTimestamp(b), ':', '-');
      var prefix := ReportsDir + "/incident_report_";
      StampFields(a);
      StampFields(b);
      MiddleSlice(prefix, fa, ".txt");
      MiddleSlice(prefix, fb, ".txt");
      assert fa == fb;
      PadInjective(a.year, b.year, 4);
      PadInjective(a.month, b.month, 2);
      PadInjective(a.day, b.day, 2);
      PadInjective(a.hour, b.hour, 2);
      PadInjective(a.minute, b.minute, 2);
    }
  }

  function HeaderLine(ts: string): string {
    "--- Emergency Call Report " + ts + " ---"
  }

  /** What is written for one message: its role title-cased, then its content. */
  function LineText(m: Message): string {
    Title(m.role.Name()) + ": " + m.content
  }

  /** The message lines, each ended by a newline, in conversation order. */
  function Lines(conversation: seq<Message>): string {
    if conversation == [] then []
    else Lines(conversation[..|conversation| - 1]) + LineText(conversation[|conversation| - 1]) + "\n"
  }

  /** The whole text save_report writes. */
  function ReportText(ts: string, conversation: seq<Message>): string {
    HeaderLine(ts) + "\n\n" + Lines(conversation)
  }

  datatype ReportFile = ReportFile(path: string, text: string)

  /** save_report: writes the header, then one line per message. */
  method SaveReport(now: Timestamp, conversation: seq<Message>) returns (file: ReportFile)
    ensures file == ReportFile(FileName(now), ReportText(FormatTimestamp(now), conversation))
  {
    var ts := FormatTimestamp(now);
    var filename := ReportsDir + "/incident_report_" + ReplaceChar(ts, ':', '-') + ".txt";
    var text := HeaderLine(ts) + "\n\n";
    var i := 0;
    while i < |conversation|
      invariant i <= |conversation|
      invariant text == ReportText(ts, conversation[..i])
    {
      var msg := conversation[i];
      var role := Title(msg.role.Name());
      ReportTextSnoc(ts, conversation, i);
      text := text + (role + ": " + msg.content) + "\n";
      i := i + 1;
    }
    assert conversation[..|conversation|] == conversation;
    file := ReportFile(filename, text);
  }

  /** Writing one more message line extends the transcript by that line. */
  lemma {:induction false} ReportTextSnoc(ts: string, conversation: seq<Message>, i: nat)
    requires i < |conversation|
    ensures ReportText(ts, conversation[..i + 1]) == ReportText(ts, conversation[..i]) + LineText(conversation[i]) + "\n"
  {
    var front := conversation[..i + 1];
    TakeSnoc(conversation, i);
    assert Lines(front) == Lines(conversation[..i]) + LineText(conversation[i]) + "\n";
    AppendAssoc(HeaderLine(ts) + "\n\n", Lines(conversation[..i]), LineText(conversation[i]) + "\n");
  }

  // Reading a transcript back.

  lemma {:induction false} RoleTitles()
    ensures Title(User.Name()) == "User"
    ensures Title(Assistant.Name()) == "Assistant"
  {
    TitleLowerWord("user");
    TitleLowerWord("assistant");
  }

  function ParseHeader(line: string): Option<string> {
    var open, close := "--- Emergency Call Report ", " ---";
    if |line| >= |open| + |close| && line[..|open|] == open && line[|line| - |close|..] == close
    then Some(line[|open|..|line| - |close|])
    else None
  }

  /** Reads one `Role: content` line; the labels are the title-cased role
      names (see RoleTitles). */
  function ParseLine(line: string): Option<Message> {
    var user, assistant := "User: ", "Assistant: ";
    if StartsWith(line, user) then Some(Message(User, line[|user|..]))
    else if StartsWith(line, assistant) then Some(Message(Assistant, line[|assistant|..]))
    else None
  }

  function ParseLines(lines: seq<string>): Option<seq<Message>> {
    if lines == [] then Some([])
    else
      match (ParseLines(lines[..|lines| - 1]), ParseLine(lines[|lines| - 1]))
      case (Some(ms), Some(m)) => Some(ms + [m])
      case _ => None
  }

  datatype ParsedReport = ParsedReport(timestamp: string, conversation: seq<Message>)

  /** Splits a transcript into lines and reads the header and the messages. */
  function ParseReport(text: string): Option<ParsedReport> {
    var lines := Split(text, '\n');
    if |lines| < 3 || lines[1] != [] || lines[|lines| - 1] != [] then None
    else
      match (ParseHeader(lines[0]), ParseLines(lines[2..|lines| - 1]))
      case (Some(ts), Some(ms)) => Some(ParsedReport(ts, ms))
      case _ => None
  }

  function LineTexts(conversation: seq<Message>): (r: seq<string>)
    ensures |r| == |conversation|
    ensures forall k :: 0 <= k < |r| ==> r[k] == LineText(conversation[k])
  {
    if conversation == [] then []
    else LineTexts(conversation[..|conversation| - 1]) + [LineText(conversation[|conversation| - 1])]
  }

  /** The message lines are the newline join of their texts, with a final
      newline. */
  lemma {:induction false} LinesAsJoin(conversation: seq<Message>)
    requires conversation != []
    ensures Lines(conversation) == Join(LineTexts(conversation), '\n') + "\n"
  {
    var init, last := conversation[..|conversation| - 1], conversation[|conversation| - 1];
    if init == [] {
      assert LineTexts(conversation) == [LineText(last)];
    } else {
      LinesAsJoin(init);
      JoinAppend(LineTexts(init), LineText(last), '\n');
    }
  }

  /** The transcript is the header, a blank line, the message lines and an
      empty last line, joined by newlines. */
  lemma {:induction false} ReportTextAsJoin(ts: string, conversation: seq<Message>)
    ensures ReportText(ts, conversation) == Join([HeaderLine(ts), ""] + LineTexts(conversation) + [""], '\n')
  {
    var lines := LineTexts(conversation);
    var head: seq<string> := [HeaderLine(ts), ""];
    assert Join(head, '\n') == HeaderLine(ts) + "\n";
    assert head + lines + [""] == head + (lines + [""]);
    JoinConcat(head, lines + [""], '\n');
    if conversation == [] {
      assert lines + [""] == [""];
    } else {
      JoinAppend(lines, "", '\n');
      LinesAsJoin(conversation);
    }
    var rest := Join(lines + [""], '\n');
    assert rest == Lines(conversation);
    BlankLine(HeaderLine(ts), rest);
  }

  lemma {:induction false} BlankLine(a: string, b: string)
    ensures a + "\n" + "\n" + b == a + "\n\n" + b
  {
    assert "\n\n" == "\n" + "\n";
  }

  lemma {:induction false} ParseLineText(m: Message)
    requires '\n' !in m.content
    ensures ParseLine(LineText(m)) == Some(m)
  {
    RoleTitles();
    if m.role == Assistant {
      assert LineText(m) == "Assistant: " + m.content;
      assert LineText(m)[0] == 'A';
      assert !StartsWith(LineText(m), "User: ");
    } else {
      assert LineText(m) == "User: " + m.content;
    }
  }

  lemma {:induction false} LineTextNoNewline(m: Message)
    requires '\n' !in m.content
    ensures '\n' !in LineText(m)
  {
    RoleTitles();
  }

  lemma {:induction false} ParseLinesSnoc(lines: seq<string>, line: string, ms: seq<Message>, m: Message)
    requires ParseLines(lines) == Some(ms) && ParseLine(line) == Some(m)
    ensures ParseLines(lines + [line]) == Some(ms + [m])
  {
    assert (lines + [line])[..|lines|] == lines;
  }

  lemma {:induction false} ParseLineTexts(conversation: seq<Message>)
    requires forall k :: 0 <= k < |conversation| ==> '\n' !in conversation[k].content
    ensures ParseLines(LineTexts(conversation)) == Some(conversation)
  {
    if conversation != [] {
      var init, last := conversation[..|conversation| - 1], conversation[|conversation| - 1];
      assert LineTexts(conversation) == LineTexts(init) + [LineText(last)];
      ParseLineTexts(init);
      ParseLineText(last);
      ParseLinesSnoc(LineTexts(init), LineText(last), init, last);
      Snoc(conversation);
    }
  }

  lemma {:induction false} FormatTimestampNoNewline(t: Timestamp)
    ensures '\n' !in FormatTimestamp(t)
  {
    var s := FormatTimestamp(t);
    forall k | 0 <= k < |s| ensures s[k] != '\n' {
      assert IsDigit(s[k]) || s[k] in "-: ";
    }
  }

  lemma {:induction false} ParseHeaderLine(ts: string)
    ensures ParseHeader(HeaderLine(ts)) == Some(ts)
  {
    var line := HeaderLine(ts);
    assert line[..26] == "--- Emergency Call Report ";
    assert line[|line| - 4..] == " ---";
    assert line[26..|line| - 4] == ts;
  }

  lemma {:induction false} HeaderNoNewline(ts: string)
    requires '\n' !in ts
    ensures '\n' !in HeaderLine(ts)
  {
    assert '\n' !in "--- Emergency Call Report ";
    assert '\n' !in " ---";
  }

  lemma {:induction false} LineTextsNoNewline(conversation: seq<Message>)
    requires forall k :: 0 <= k < |conversation| ==> '\n' !in conversation[k].content
    ensures forall k :: 0 <= k < |conversation| ==> '\n' !in LineTexts(conversation)[k]
  {
    forall k | 0 <= k < |conversation| ensures '\n' !in LineTexts(conversation)[k] {
      LineTextNoNewline(conversation[k]);
    }
  }

  lemma {:induction false} LinePartsNoNewline(ts: string, conversation: seq<Message>)
    requires '\n' !in ts
    requires forall k :: 0 <= k < |conversation| ==> '\n' !in conversation[k].content
    ensures var parts := [HeaderLine(ts), ""] + LineTexts(conversation) + [""];
      forall k :: 0 <= k < |parts| ==> '\n' !in parts[k]
  {
    var lines := LineTexts(conversation);
    var parts := [HeaderLine(ts), ""] + lines + [""];
    HeaderNoNewline(ts);
    LineTextsNoNewline(conversation);
    forall k | 0 <= k < |parts| ensures '\n' !in parts[k] {
      if 2 <= k < |parts| - 1 {
        assert parts[k] == lines[k - 2];
      }
    }
  }

  /** The lines of a transcript: header, blank line, one per message, and the
      empty piece after the final newline; none contains a newline. */
  lemma {:induction false} ReportLines(ts: string, conversation: seq<Message>)
    requires '\n' !in ts
    requires forall k :: 0 <= k < |conversation| ==> '\n' !in conversation[k].content
    ensures Split(ReportText(ts, conversation), '\n') == [HeaderLine(ts), ""] + LineTexts(conversation) + [""]
  {
    var parts := [HeaderLine(ts), ""] + LineTexts(conversation) + [""];
    ReportTextAsJoin(ts, conversation);
    LinePartsNoNewline(ts, conversation);
    SplitJoin(parts, '\n');
  }

  /** Reading a saved transcript back gives the timestamp and the whole
      conversation, provided no message spans more than one line. */
  lemma {:induction false} ReportRoundTrip(now: Timestamp, conversation: seq<Message>)
    requires forall k :: 0 <= k < |conversation| ==> '\n' !in conversation[k].content
    ensures ParseReport(ReportText(FormatTimestamp(now), conversation))
         == Some(ParsedReport(FormatTimestamp(now), conversation))
  {
    var ts := FormatTimestamp(now);
    FormatTimestampNoNewline(now);
    ReportLines(ts, conversation);
    var parts := [HeaderLine(ts), ""] + LineTexts(conversation) + [""];
    assert parts[2..|parts| - 1] == LineTexts(conversation);
    ParseLineTexts(conversation);
    ParseHeaderLine(ts);
  }

  /** Without that proviso the transcript is ambiguous: a caller turn whose
      text continues on a new line with a role label reads back as two turns. */
  lemma {:induction false} MultilineContentIsAmbiguous(ts: string, x: string, y: string)
    ensures var one := [Message(User, x + "\nAssistant: " + y)];
            var two := [Message(User, x), Message(Assistant, y)];
            one != two && ReportText(ts, one) == ReportText(ts, two)
  {
    var one := [Message(User, x + "\nAssistant: " + y)];
    var two := [Message(User, x), Message(Assistant, y)];
    RoleTitles();
    assert two[..1] == [Message(User, x)];
    assert Lines(two) == Lines([Message(User, x)]) + LineText(Message(Assistant, y)) + "\n";
    assert Lines([Message(User, x)]) == [] + LineText(Message(User, x)) + "\n";
    assert Lines(one) == [] + LineText(one[0]) + "\n";
    assert LineText(one[0]) == "User: " + (x + "\nAssistant: " + y);
    assert LineText(Message(User, x)) == "User: " + x;
    assert LineText(Message(Assistant, y)) == "Assistant: " + y;
    LabelAssoc(x, y);
    assert Lines(one) == Lines(two);
    assert |one| != |two|;
  }

  lemma LabelAssoc(x: string, y: string)
    ensures "User: " + (x + "\nAssistant: " + y) + "\n" == "User: " + x + "\n" + ("Assistant: " + y) + "\n"
  {
    assert "\nAssistant: " == "\n" + "Assistant: ";
  }
}
