/** The text report: one line per task, `[<id>] <description> - <status> (Created: <createdAt>)`
    followed by a newline, in collection order; an empty collection yields no
    report at all. The id is written in decimal as Python's str() writes a
    non-negative integer. */
module TaskExport {
  import opened TaskModel

  predicate IsDigit(c: char) {
    '0' <= c <= '9'
  }

  predicate AllDigits(s: string) {
    forall i :: 0 <= i < |s| ==> IsDigit(s[i])
  }

  function DigitChar(d: nat): (c: char)
    requires d < 10
    ensures IsDigit(c) && c as int - '0' as int == d
  {
    ('0' as int + d) as char
  }

  /** The decimal text of n: at least one digit, no leading zero. */
  function DecimalString(n: nat): (s: string)
    ensures |s| >= 1 && AllDigits(s)
    ensures s[0] == '0' ==> s == "0"
    decreases n
  {
    if n < 10 then [DigitChar(n)] else DecimalString(n / 10) + [DigitChar(n % 10)]
  }

  /** The number a string of decimal digits denotes. */
  function DecimalValue(s: string): (n: nat)
    requires AllDigits(s)
  {
    if s == [] then 0 else DecimalValue(s[..|s| - 1]) * 10 + (s[|s| - 1] as int - '0' as int)
  }

  lemma {:induction false} DecimalRoundTrip(n: nat)
    ensures DecimalValue(DecimalString(n)) == n
    decreases n
  {
    if n >= 10 {
      DecimalRoundTrip(n / 10);
      var s := DecimalString(n);
      assert s[..|s| - 1] == DecimalString(n / 10);
    }
  }

  /** The export line of one task. */
  function ExportLine(t: Task): (line: string)
    ensures |line| > 0 && line[0] == '[' && line[|line| - 1] == '\n'
  {
    "[" + DecimalString(t.id) + "] " + t.description + " - " + t.status + " (Created: " + t.createdAt + ")\n"
  }

  function ExportLines(tasks: seq<Task>): (lines: seq<string>)
    ensures |lines| == |tasks|
    ensures forall k :: 0 <= k < |tasks| ==> lines[k] == ExportLine(tasks[k])
  {
    seq(|tasks|, k requires 0 <= k < |tasks| => ExportLine(tasks[k]))
  }

  datatype ExportResult = NothingToExport | Exported(lines: seq<string>)

  /** The outcome of export: nothing to export for an empty collection, else the
      report lines in order. */
  function Export(tasks: seq<Task>): (r: ExportResult)
    ensures r.NothingToExport? <==> tasks == []
    ensures r.Exported? ==> |r.lines| == |tasks| && forall k :: 0 <= k < |tasks| ==> r.lines[k] == ExportLine(tasks[k])
  {
    if tasks == [] then NothingToExport else Exported(ExportLines(tasks))
  }

  /** The number of leading decimal digits of s. */
  function LeadingDigits(s: string): (n: nat)
    ensures n <= |s| && AllDigits(s[..n])
    ensures n < |s| ==> !IsDigit(s[n])
  {
    if s == [] || !IsDigit(s[0]) then 0
    else
      var n := 1 + LeadingDigits(s[1..]);
      assert s[..n] == [s[0]] + s[1..][..n - 1];
      n
  }

  /** Reads the id back out of a line of the form `[<digits>]...`. */
  function ParseExportId(line: string): (r: Option<nat>) {
    if |line| > 0 && line[0] == '[' then
      var n := LeadingDigits(line[1..]);
      assert line[1..n + 1] == line[1..][..n];
      if 0 < n && n + 1 < |line| && line[n + 1] == ']' then Some(DecimalValue(line[1..n + 1])) else None
    else None
  }

  lemma LeadingDigitsOf(digits: string, rest: string)
    requires AllDigits(digits) && rest != [] && !IsDigit(rest[0])
    ensures LeadingDigits(digits + rest) == |digits|
  {
    var s := digits + rest;
    assert s[|digits|] == rest[0];
    assert forall i :: 0 <= i < |digits| ==> s[i] == digits[i];
  }

  /** The id in an export line reads back as the task's own id. */
  lemma ExportLineId(t: Task)
    ensures ParseExportId(ExportLine(t)) == Some(t.id)
  {
    var d := DecimalString(t.id);
    var head := "[" + d;
    var line := ExportLine(t);
    var rest := line[|head|..];
    assert line[..|head|] == head;
    assert line == head + rest;
    assert rest[0] == ']';
    assert line[1..] == d + rest;
    LeadingDigitsOf(d, rest);
    assert line[1..|d| + 1] == d;
    DecimalRoundTrip(t.id);
  }
}
