/**
 * The documents of the parsers' unit tests (src/sysctl.rs and src/lib.rs),
 * with the outcomes the tests expect. A document of several lines is given
 * as the list of its lines joined with line feeds. The outcome of each
 * line follows from general lemmas about lines of plain characters; the
 * outcome of a document from the outcomes of its lines.
 */
module Cases {
  import opened Wrappers
  import opened Strings
  import opened LineSyntax
  import opened HashMap
  import opened Sysctl

  const Endpoint3000 := "endpoint = localhost:3000"
  const Endpoint3001 := "endpoint = localhost:3001"
  const DebugTrue := "debug = true"
  const PaddedEndpoint := "  " + Endpoint3000 + "  "
  const Spaces := "        "
  const DebugComment := "# debug = true"
  const LogFile := "log.file = /var/log/console.log"
  const LogName := "log.name = default.log"
  const DisabledLogFile := "-log.file = /var/log/console.log"
  const LeadingDot := ".endpoint = localhost:3000"
  const TrailingDot := "endpoint. = localhost:3000"
  const DoubleDot := "end..point = localhost:3000"
  const NoEquals := "end.point.localhost:3000"

  /** A string without a character has no occurrence of it. */
  lemma AbsentChar(s: string, c: char)
    requires c !in s
    ensures !Contains(s, [c])
  {
    forall k: nat | k <= |s| ensures !OccursAt(s, [c], k) {
      if k + 1 <= |s| {
        assert s[k..k + 1] == [s[k]];
      }
    }
  }

  /** A line that starts with a character other than whitespace, `#`, `;` and `-` and ends with one other than whitespace. */
  lemma PlainLine(line: string)
    requires |line| >= 1 && !IsWhitespace(line[0]) && !IsWhitespace(line[|line| - 1])
    requires line[0] != '#' && line[0] != ';' && line[0] != '-'
    requires '\n' !in line && '\r' !in line
    ensures Trim(line) == line && !HasLineBreak(line) && !IsIgnored(line)
  {
    TrimInfix(line, 0, |line|);
    assert "#"[0] != line[0] && ";"[0] != line[0] && "-"[0] != line[0];
  }

  /** A line whose first character is `c`, after no whitespace, is ignored. */
  lemma IgnoredLine(edition: Edition, line: string)
    requires |line| >= 1 && !IsWhitespace(line[0]) && !IsWhitespace(line[|line| - 1])
    requires line[0] == '#' || line[0] == ';' || line[0] == '-'
    requires '\n' !in line && '\r' !in line
    ensures ParseLine(edition, line) == Success(None)
  {
    TrimInfix(line, 0, |line|);
    assert [line[0]] <= line;
  }

  /** A character that is neither whitespace nor `=`. */
  predicate PlainChar(c: char) {
    !IsWhitespace(c) && c != '='
  }

  /** A non-empty word of plain characters. */
  predicate Plain(s: string) {
    s != [] && forall i :: 0 <= i < |s| ==> PlainChar(s[i])
  }

  /** The characters of `token = value` that are not the `=` come from the token, the value or the two spaces. */
  lemma PlainAssignmentChars(token: string, value: string)
    requires forall i :: 0 <= i < |token| ==> PlainChar(token[i])
    requires forall i :: 0 <= i < |value| ==> PlainChar(value[i])
    ensures var line := token + " = " + value;
      && '\n' !in line && '\r' !in line
      && line[|token| + 1] == '=' && '=' !in line[..|token| + 1]
      && line[..|token| + 1] == token + " " && line[|token| + 2..] == " " + value
  {
    var line := token + " = " + value;
    var k := |token| + 1;
    assert forall i :: 0 <= i < |token| ==> line[i] == token[i];
    assert forall i :: k + 2 <= i < |line| ==> line[i] == value[i - k - 2];
    forall i | 0 <= i < |line| ensures line[i] != '\n' && line[i] != '\r' {
      if i < |token| {
        assert PlainChar(token[i]);
      } else if i >= k + 2 {
        assert PlainChar(value[i - k - 2]);
      }
    }
    assert line[..k] == token + " ";
    forall i | 0 <= i < k ensures line[..k][i] != '=' {
      if i < |token| {
        assert PlainChar(token[i]);
      }
    }
  }

  /** The trims of `token = value` and of its two sides. */
  lemma PlainAssignmentTrims(token: string, value: string)
    requires Plain(token) && Plain(value)
    ensures var line := token + " = " + value;
      && Trim(line) == line
      && Trim(token + " ") == token && Trim(" " + value) == value
      && Trim(token) == token && Trim(value) == value
  {
    var line := token + " = " + value;
    assert line[0] == token[0] && line[|line| - 1] == value[|value| - 1];
    TrimInfix(line, 0, |line|);
    TrimInfix(token + " ", 0, |token|);
    assert (token + " ")[..|token|] == token;
    TrimInfix(" " + value, 1, |value| + 1);
    assert (" " + value)[1..|value| + 1] == value;
    TrimInfix(token, 0, |token|);
    TrimInfix(value, 0, |value|);
  }

  /**
   * A line `token = value` of plain characters is cut at its only `=`, and
   * its token and value need no trimming.
   */
  lemma PlainAssignment(edition: Edition, token: string, value: string)
    requires Plain(token) && Plain(value)
    requires token[0] != '#' && token[0] != ';' && token[0] != '-'
    ensures '\n' !in token + " = " + value
    ensures ParseLine(edition, token + " = " + value) == AsEntry(ParseToken(edition, token, value))
    ensures Trim(token) == token && Trim(value) == value
  {
    var line := token + " = " + value;
    var k := |token| + 1;
    assert line[0] == token[0];
    assert "#"[0] != line[0] && ";"[0] != line[0] && "-"[0] != line[0];
    assert !IsIgnored(line);
    PlainAssignmentChars(token, value);
    PlainAssignmentTrims(token, value);
    TrimmedAssignmentLine(edition, line, k, token, value);
  }

  /** A plain line without `=` is a format error. */
  lemma PlainUnseparated(edition: Edition, line: string)
    requires Plain(line)
    requires line[0] != '#' && line[0] != ';' && line[0] != '-'
    ensures ParseLine(edition, line) == Failure(FormatError(edition, line)) && '\n' !in line
  {
    forall i | 0 <= i < |line| ensures line[i] != '\n' && line[i] != '\r' && line[i] != '=' {
      assert PlainChar(line[i]);
    }
    PlainLine(line);
    AbsentChar(line, '=');
    UnseparatedLine(edition, line);
  }

  /** A plain `token = value` line with a well-formed token yields the entry at the token's path. */
  lemma PlainEntry(edition: Edition, token: string, value: string, path: seq<string>)
    requires Plain(token) && Plain(value)
    requires token[0] != '#' && token[0] != ';' && token[0] != '-'
    requires DotsSeparated(token) && Split(token, '.') == path
    ensures '\n' !in token + " = " + value
    ensures ParseLine(edition, token + " = " + value) == Success(Some(SysctlParameter(path, value)))
  {
    PlainAssignment(edition, token, value);
    WellFormedToken(edition, token, value);
  }

  /** A token of one non-empty dot-free segment. */
  lemma OneSegmentToken(a: string)
    requires a != [] && '.' !in a
    ensures DotsSeparated(a) && Split(a, '.') == [a]
  {
    SplitSingle(a, '.');
    JoinDotsSeparated([a]);
  }

  /** A token of two non-empty dot-free segments. */
  lemma TwoSegmentToken(token: string, a: string, b: string)
    requires token == a + "." + b
    requires a != [] && b != [] && '.' !in a && '.' !in b
    ensures DotsSeparated(token) && Split(token, '.') == [a, b]
  {
    SplitSingle(b, '.');
    SplitAfterSegment(a, b, '.');
    assert [a, b][1..] == [b];
    JoinDotsSeparated([a, b]);
  }

  /** A plain `token = value` line whose token is one segment. */
  lemma OneSegmentLine(edition: Edition, token: string, value: string)
    requires Plain(token) && Plain(value) && '.' !in token
    requires token[0] != '#' && token[0] != ';' && token[0] != '-'
    ensures ParseLine(edition, token + " = " + value) == Success(Some(SysctlParameter([token], value)))
    ensures '\n' !in token + " = " + value
  {
    OneSegmentToken(token);
    PlainEntry(edition, token, value, [token]);
  }

  /** A plain `a.b = value` line. */
  lemma TwoSegmentLine(edition: Edition, token: string, a: string, b: string, value: string)
    requires token == a + "." + b
    requires Plain(token) && Plain(value) && a != [] && b != [] && '.' !in a && '.' !in b
    requires token[0] != '#' && token[0] != ';' && token[0] != '-'
    ensures ParseLine(edition, token + " = " + value) == Success(Some(SysctlParameter([a, b], value)))
    ensures '\n' !in token + " = " + value
  {
    TwoSegmentToken(token, a, b);
    PlainEntry(edition, token, value, [a, b]);
  }

  /** The words of the test lines: plain, and for a token, its first character and its segments. */
  lemma EndpointWord()
    ensures Plain("endpoint") && "endpoint"[0] == 'e' && '.' !in "endpoint"
  {
  }

  lemma DebugWord()
    ensures Plain("debug") && "debug"[0] == 'd' && '.' !in "debug"
  {
  }

  lemma TrueWord()
    ensures Plain("true")
  {
  }

  lemma LeadingDotWord()
    ensures Plain(".endpoint") && ".endpoint"[0] == '.' && !HasValidHierarchy(".endpoint")
  {
    assert ".endpoint"[..1] == ".";
  }

  lemma TrailingDotWord()
    ensures Plain("endpoint.") && "endpoint."[0] == 'e' && !HasValidHierarchy("endpoint.")
  {
    assert "endpoint."[8..] == ".";
  }

  lemma DoubleDotWord()
    ensures Plain("end..point") && "end..point"[0] == 'e' && !HasValidHierarchy("end..point")
  {
    assert OccursAt("end..point", "..", 3);
  }

  lemma LogFileWord()
    ensures Plain("log.file") && "log.file"[0] == 'l' && "log.file" == "log" + "." + "file"
    ensures '.' !in "log" && '.' !in "file"
  {
  }

  lemma LogNameWord()
    ensures Plain("log.name") && "log.name"[0] == 'l' && "log.name" == "log" + "." + "name"
    ensures '.' !in "log" && '.' !in "name"
  {
  }

  lemma Localhost3000Word()
    ensures Plain("localhost:3000")
  {
  }

  lemma Localhost3001Word()
    ensures Plain("localhost:3001")
  {
  }

  lemma ConsoleLogWord()
    ensures Plain("/var/log/console.log")
  {
  }

  lemma DefaultLogWord()
    ensures Plain("default.log")
  {
  }

  /** The test lines as their token, ` = ` and value. */
  lemma Endpoint3000Text()
    ensures Endpoint3000 == "endpoint" + " = " + "localhost:3000"
  {
  }

  lemma Endpoint3001Text()
    ensures Endpoint3001 == "endpoint" + " = " + "localhost:3001"
  {
  }

  lemma DebugTrueText()
    ensures DebugTrue == "debug" + " = " + "true"
  {
  }

  /** Two spaces on either side of a line that needs no trimming are trimmed away. */
  lemma TrimPadding(line: string)
    requires line != [] && Trim(line) == line
    ensures Trim("  " + line + "  ") == line
  {
    assert !IsWhitespace(line[0]) && !IsWhitespace(line[|line| - 1]);
    var s := "  " + line + "  ";
    assert s[2..|s| - 2] == line;
    TrimInfix(s, 2, |s| - 2);
  }

  /** Padding with spaces adds no line feed. */
  lemma PaddingSingleLine(line: string)
    requires '\n' !in line
    ensures '\n' !in "  " + line + "  "
  {
  }

  /** A line of spaces only. */
  lemma SpacesText()
    ensures forall k :: 0 <= k < |Spaces| ==> IsWhitespace(Spaces[k])
    ensures '\n' !in Spaces
  {
  }

  lemma LogFileText()
    ensures LogFile == "log.file" + " = " + "/var/log/console.log"
  {
  }

  lemma LogNameText()
    ensures LogName == "log.name" + " = " + "default.log"
  {
  }

  lemma LeadingDotText()
    ensures LeadingDot == ".endpoint" + " = " + "localhost:3000"
  {
  }

  lemma TrailingDotText()
    ensures TrailingDot == "endpoint." + " = " + "localhost:3000"
  {
  }

  lemma DoubleDotText()
    ensures DoubleDot == "end..point" + " = " + "localhost:3000"
  {
  }

  /** The comment and the disabled line: a marker first, no whitespace at either end, one line. */
  lemma DebugCommentText()
    ensures |DebugComment| >= 1 && DebugComment[0] == '#'
    ensures !IsWhitespace(DebugComment[0]) && !IsWhitespace(DebugComment[|DebugComment| - 1])
    ensures '\n' !in DebugComment && '\r' !in DebugComment
  {
  }

  lemma DisabledLogFileText()
    ensures |DisabledLogFile| >= 1 && DisabledLogFile[0] == '-'
    ensures !IsWhitespace(DisabledLogFile[0]) && !IsWhitespace(DisabledLogFile[|DisabledLogFile| - 1])
    ensures '\n' !in DisabledLogFile && '\r' !in DisabledLogFile
  {
  }

  lemma Endpoint3000Line(edition: Edition)
    ensures ParseLine(edition, Endpoint3000) == Success(Some(SysctlParameter(["endpoint"], "localhost:3000")))
    ensures '\n' !in Endpoint3000
  {
    EndpointWord();
    Localhost3000Word();
    Endpoint3000Text();
    OneSegmentLine(edition, "endpoint", "localhost:3000");
  }

  lemma Endpoint3001Line(edition: Edition)
    ensures ParseLine(edition, Endpoint3001) == Success(Some(SysctlParameter(["endpoint"], "localhost:3001")))
    ensures '\n' !in Endpoint3001
  {
    EndpointWord();
    Localhost3001Word();
    Endpoint3001Text();
    OneSegmentLine(edition, "endpoint", "localhost:3001");
  }

  lemma DebugTrueLine(edition: Edition)
    ensures ParseLine(edition, DebugTrue) == Success(Some(SysctlParameter(["debug"], "true")))
    ensures '\n' !in DebugTrue
  {
    DebugWord();
    TrueWord();
    DebugTrueText();
    OneSegmentLine(edition, "debug", "true");
  }

  /** Lines with the same trimmed text parse alike. */
  lemma SameTrim(edition: Edition, line: string, line': string)
    requires Trim(line) == Trim(line')
    ensures ParseLine(edition, line) == ParseLine(edition, line')
  {
  }

  /** A line of whitespace only is blank once trimmed, and yields nothing. */
  lemma BlankLine(edition: Edition, line: string)
    requires forall k :: 0 <= k < |line| ==> IsWhitespace(line[k])
    ensures ParseLine(edition, line) == Success(None)
  {
    var i, j :| 0 <= i <= j <= |line| && Trim(line) == line[i..j];
    assert forall k :: 0 <= k < |Trim(line)| ==> IsWhitespace(Trim(line)[k]);
    assert Trim(line) == [];
    ParseLineCases(edition, line);
  }

  /** The plain `endpoint` line needs no trimming. */
  lemma Endpoint3000Trimmed()
    ensures Endpoint3000 != [] && Trim(Endpoint3000) == Endpoint3000
  {
    EndpointWord();
    Localhost3000Word();
    Endpoint3000Text();
    PlainAssignmentTrims("endpoint", "localhost:3000");
  }

  lemma PaddedEndpointLine(edition: Edition)
    ensures ParseLine(edition, PaddedEndpoint) == Success(Some(SysctlParameter(["endpoint"], "localhost:3000")))
    ensures '\n' !in PaddedEndpoint
  {
    Endpoint3000Trimmed();
    Endpoint3000Line(edition);
    TrimPadding(Endpoint3000);
    PaddingSingleLine(Endpoint3000);
    SameTrim(edition, PaddedEndpoint, Endpoint3000);
  }

  lemma EmptyLine(edition: Edition)
    ensures ParseLine(edition, "") == Success(None) && '\n' !in ""
  {
    BlankLine(edition, "");
  }

  lemma SpacesLine(edition: Edition)
    ensures ParseLine(edition, Spaces) == Success(None) && '\n' !in Spaces
  {
    SpacesText();
    BlankLine(edition, Spaces);
  }

  lemma LogFileLine(edition: Edition)
    ensures ParseLine(edition, LogFile) == Success(Some(SysctlParameter(["log", "file"], "/var/log/console.log")))
    ensures '\n' !in LogFile
  {
    LogFileWord();
    ConsoleLogWord();
    LogFileText();
    TwoSegmentLine(edition, "log.file", "log", "file", "/var/log/console.log");
  }

  lemma LogNameLine(edition: Edition)
    ensures ParseLine(edition, LogName) == Success(Some(SysctlParameter(["log", "name"], "default.log")))
    ensures '\n' !in LogName
  {
    LogNameWord();
    DefaultLogWord();
    LogNameText();
    TwoSegmentLine(edition, "log.name", "log", "name", "default.log");
  }

  lemma DebugCommentLine(edition: Edition)
    ensures ParseLine(edition, DebugComment) == Success(None) && '\n' !in DebugComment
  {
    DebugCommentText();
    IgnoredLine(edition, DebugComment);
  }

  lemma DisabledLogFileLine(edition: Edition)
    ensures ParseLine(edition, DisabledLogFile) == Success(None) && '\n' !in DisabledLogFile
  {
    DisabledLogFileText();
    IgnoredLine(edition, DisabledLogFile);
  }

  /** The map after one line's entry, if any. */
  function After(acc: Items, r: Result<Option<SysctlParameter>, string>): Items {
    if r.Success? && r.value.Some? then Inserted(acc, r.value.value.path, r.value.value.value) else acc
  }

  /** An accepted or ignored first result goes into the map and the parse goes on. */
  lemma CollectAccepted(results: seq<Result<Option<SysctlParameter>, string>>, acc: Items)
    requires |results| >= 1 && results[0].Success?
    ensures Collect(results, acc) == Collect(results[1..], After(acc, results[0]))
  {
  }

  /** Two accepted or ignored results in a row. */
  lemma CollectTwo(results: seq<Result<Option<SysctlParameter>, string>>, acc: Items)
    requires |results| == 2 && results[0].Success? && results[1].Success?
    ensures Collect(results, acc) == Success(After(After(acc, results[0]), results[1]))
  {
    var m1 := After(acc, results[0]);
    CollectAccepted(results, acc);
    CollectAccepted(results[1..], m1);
    assert results[1..][1..] == [];
  }

  /** Three accepted or ignored results in a row. */
  lemma CollectThree(results: seq<Result<Option<SysctlParameter>, string>>, acc: Items)
    requires |results| == 3 && results[0].Success? && results[1].Success? && results[2].Success?
    ensures Collect(results, acc) == Success(After(After(After(acc, results[0]), results[1]), results[2]))
  {
    CollectAccepted(results, acc);
    CollectTwo(results[1..], After(acc, results[0]));
  }

  /** Four accepted or ignored results in a row. */
  lemma CollectFour(results: seq<Result<Option<SysctlParameter>, string>>, acc: Items)
    requires |results| == 4
    requires results[0].Success? && results[1].Success? && results[2].Success? && results[3].Success?
    ensures Collect(results, acc) ==
              Success(After(After(After(After(acc, results[0]), results[1]), results[2]), results[3]))
  {
    var m1 := After(acc, results[0]);
    var m2 := After(m1, results[1]);
    CollectAccepted(results, acc);
    CollectAccepted(results[1..], m1);
    assert results[1..][1..] == results[2..];
    CollectTwo(results[2..], m2);
  }

  /** The result of line `i` is the result of that line. */
  lemma ParsedLineAt(edition: Edition, lines: seq<string>, i: nat, line: string)
    requires i < |lines| && lines[i] == line
    ensures ParsedLines(edition, lines)[i] == ParseLine(edition, line)
  {
  }

  /** The lines of a document given as its lines. */
  lemma SplitTwoLines(l1: string, l2: string)
    requires '\n' !in l1 && '\n' !in l2
    ensures Lines(Join([l1, l2], '\n')) == [l1, l2]
  {
    SplitJoin([l1, l2], '\n');
  }

  lemma SplitThreeLines(l1: string, l2: string, l3: string)
    requires '\n' !in l1 && '\n' !in l2 && '\n' !in l3
    ensures Lines(Join([l1, l2, l3], '\n')) == [l1, l2, l3]
  {
    var lines := [l1, l2, l3];
    forall i | 0 <= i < 3 ensures '\n' !in lines[i] {
    }
    SplitJoin(lines, '\n');
  }

  lemma SplitFourLines(l1: string, l2: string, l3: string, l4: string)
    requires '\n' !in l1 && '\n' !in l2 && '\n' !in l3 && '\n' !in l4
    ensures Lines(Join([l1, l2, l3, l4], '\n')) == [l1, l2, l3, l4]
  {
    var lines := [l1, l2, l3, l4];
    forall i | 0 <= i < 4 ensures '\n' !in lines[i] {
    }
    SplitJoin(lines, '\n');
  }

  /** A document of two accepted or ignored lines. */
  lemma TwoLineDocument(edition: Edition, l1: string, l2: string)
    requires '\n' !in l1 && '\n' !in l2
    requires ParseLine(edition, l1).Success? && ParseLine(edition, l2).Success?
    ensures ParseDocument(edition, Join([l1, l2], '\n')) ==
              Success(After(After(map[], ParseLine(edition, l1)), ParseLine(edition, l2)))
  {
    var lines := [l1, l2];
    var results := ParsedLines(edition, lines);
    ParsedLineAt(edition, lines, 0, l1);
    ParsedLineAt(edition, lines, 1, l2);
    SplitTwoLines(l1, l2);
    CollectTwo(results, map[]);
  }

  /** A one-line document whose line is rejected fails with that line's error. */
  lemma RejectedLineDocument(edition: Edition, line: string)
    requires '\n' !in line && ParseLine(edition, line).Failure?
    ensures ParseDocument(edition, line) == Failure(ParseLine(edition, line).error)
  {
    var results := ParsedLines(edition, [line]);
    ParsedLineAt(edition, [line], 0, line);
    assert Join([line], '\n') == line;
    DocumentOfLines(edition, [line]);
    assert Collect(results, map[]) == Failure(results[0].error);
  }

  /** A document of three accepted or ignored lines. */
  lemma ThreeLineDocument(edition: Edition, l1: string, l2: string, l3: string)
    requires '\n' !in l1 && '\n' !in l2 && '\n' !in l3
    requires ParseLine(edition, l1).Success? && ParseLine(edition, l2).Success? && ParseLine(edition, l3).Success?
    ensures ParseDocument(edition, Join([l1, l2, l3], '\n')) ==
              Success(After(After(After(map[], ParseLine(edition, l1)), ParseLine(edition, l2)), ParseLine(edition, l3)))
  {
    var lines := [l1, l2, l3];
    var results := ParsedLines(edition, lines);
    ParsedLineAt(edition, lines, 0, l1);
    ParsedLineAt(edition, lines, 1, l2);
    ParsedLineAt(edition, lines, 2, l3);
    SplitThreeLines(l1, l2, l3);
    CollectThree(results, map[]);
  }

  /** A document of four accepted or ignored lines. */
  lemma FourLineDocument(edition: Edition, l1: string, l2: string, l3: string, l4: string)
    requires '\n' !in l1 && '\n' !in l2 && '\n' !in l3 && '\n' !in l4
    requires ParseLine(edition, l1).Success? && ParseLine(edition, l2).Success?
    requires ParseLine(edition, l3).Success? && ParseLine(edition, l4).Success?
    ensures ParseDocument(edition, Join([l1, l2, l3, l4], '\n')) ==
              Success(After(After(After(After(map[], ParseLine(edition, l1)), ParseLine(edition, l2)),
                                  ParseLine(edition, l3)), ParseLine(edition, l4)))
  {
    var lines := [l1, l2, l3, l4];
    var results := ParsedLines(edition, lines);
    ParsedLineAt(edition, lines, 0, l1);
    ParsedLineAt(edition, lines, 1, l2);
    ParsedLineAt(edition, lines, 2, l3);
    ParsedLineAt(edition, lines, 3, l4);
    SplitFourLines(l1, l2, l3, l4);
    CollectFour(results, map[]);
  }

  /** Test `overwrite`: the later line at the same path wins. */
  lemma Overwrite(edition: Edition)
    ensures ParseDocument(edition, Join([Endpoint3000, Endpoint3001], '\n')) ==
              Success(map["endpoint" := V("localhost:3001")])
  {
    var p1 := SysctlParameter(["endpoint"], "localhost:3000");
    var p2 := SysctlParameter(["endpoint"], "localhost:3001");
    assert After(After(map[], Success(Some(p1))), Success(Some(p2))) == map["endpoint" := V("localhost:3001")];
    assert ParseDocument(edition, Join([Endpoint3000, Endpoint3001], '\n')) ==
           Success(After(After(map[], Success(Some(p1))), Success(Some(p2)))) by {
      Endpoint3000Line(edition);
      Endpoint3001Line(edition);
      TwoLineDocument(edition, Endpoint3000, Endpoint3001);
    }
  }

  /** Test `invalid_token_begins_with_hyphen`: a disabled line adds nothing. */
  lemma DisabledLine(edition: Edition)
    ensures ParseDocument(edition, Join([Endpoint3000, DisabledLogFile], '\n')) ==
              Success(map["endpoint" := V("localhost:3000")])
  {
    var p1 := SysctlParameter(["endpoint"], "localhost:3000");
    assert After(After(map[], Success(Some(p1))), Success(None)) == map["endpoint" := V("localhost:3000")];
    assert ParseDocument(edition, Join([Endpoint3000, DisabledLogFile], '\n')) ==
           Success(After(After(map[], Success(Some(p1))), Success(None))) by {
      Endpoint3000Line(edition);
      DisabledLogFileLine(edition);
      TwoLineDocument(edition, Endpoint3000, DisabledLogFile);
    }
  }

  /**
   * Test `sample1` of src/lib.rs: one-segment lines become leaves of the
   * root, and `log.file` creates the `log` node.
   */
  lemma ThreeEntries(edition: Edition)
    ensures ParseDocument(edition, Join([Endpoint3000, DebugTrue, LogFile], '\n')) ==
              Success(map[
                "endpoint" := V("localhost:3000"),
                "debug" := V("true"),
                "log" := M(map["file" := V("/var/log/console.log")])])
  {
    var p1 := SysctlParameter(["endpoint"], "localhost:3000");
    var p2 := SysctlParameter(["debug"], "true");
    var p3 := SysctlParameter(["log", "file"], "/var/log/console.log");
    var m2 := map["endpoint" := V("localhost:3000"), "debug" := V("true")];
    assert After(After(map[], Success(Some(p1))), Success(Some(p2))) == m2;
    assert After(m2, Success(Some(p3))) == m2["log" := M(map["file" := V("/var/log/console.log")])];
    assert ParseDocument(edition, Join([Endpoint3000, DebugTrue, LogFile], '\n')) ==
           Success(After(After(After(map[], Success(Some(p1))), Success(Some(p2))), Success(Some(p3)))) by {
      Endpoint3000Line(edition);
      DebugTrueLine(edition);
      LogFileLine(edition);
      ThreeLineDocument(edition, Endpoint3000, DebugTrue, LogFile);
    }
  }

  /** Test `whitespaces`: surrounding whitespace and blank lines do not matter. */
  lemma Whitespace(edition: Edition)
    ensures ParseDocument(edition, Join([PaddedEndpoint, "", Spaces], '\n')) ==
              Success(map["endpoint" := V("localhost:3000")])
  {
    var p1 := SysctlParameter(["endpoint"], "localhost:3000");
    assert After(After(After(map[], Success(Some(p1))), Success(None)), Success(None)) == map["endpoint" := V("localhost:3000")];
    assert ParseDocument(edition, Join([PaddedEndpoint, "", Spaces], '\n')) ==
           Success(After(After(After(map[], Success(Some(p1))), Success(None)), Success(None))) by {
      PaddedEndpointLine(edition);
      EmptyLine(edition);
      SpacesLine(edition);
      ThreeLineDocument(edition, PaddedEndpoint, "", Spaces);
    }
  }

  /**
   * Test `sample2` of src/lib.rs: a comment line adds nothing, and the two
   * `log.` lines fill one shared `log` node.
   */
  lemma SharedSubtree(edition: Edition)
    ensures ParseDocument(edition, Join([Endpoint3000, DebugComment, LogFile, LogName], '\n')) ==
              Success(map[
                "endpoint" := V("localhost:3000"),
                "log" := M(map["file" := V("/var/log/console.log"), "name" := V("default.log")])])
  {
    var p1 := SysctlParameter(["endpoint"], "localhost:3000");
    var p3 := SysctlParameter(["log", "file"], "/var/log/console.log");
    var p4 := SysctlParameter(["log", "name"], "default.log");
    var m1 := map["endpoint" := V("localhost:3000")];
    var m3 := m1["log" := M(map["file" := V("/var/log/console.log")])];
    assert After(After(map[], Success(Some(p1))), Success(None)) == m1;
    assert After(m1, Success(Some(p3))) == m3;
    assert After(m3, Success(Some(p4))) ==
           map["endpoint" := V("localhost:3000"),
               "log" := M(map["file" := V("/var/log/console.log"), "name" := V("default.log")])];
    assert ParseDocument(edition, Join([Endpoint3000, DebugComment, LogFile, LogName], '\n')) ==
           Success(After(After(After(After(map[], Success(Some(p1))), Success(None)), Success(Some(p3))), Success(Some(p4)))) by {
      Endpoint3000Line(edition);
      DebugCommentLine(edition);
      LogFileLine(edition);
      LogNameLine(edition);
      FourLineDocument(edition, Endpoint3000, DebugComment, LogFile, LogName);
    }
  }

  /** A plain `token = value` line whose token breaks the hierarchy rules. */
  lemma MalformedAssignment(edition: Edition, token: string, value: string)
    requires Plain(token) && Plain(value) && !HasValidHierarchy(token)
    requires token[0] != '#' && token[0] != ';' && token[0] != '-'
    ensures ParseLine(edition, token + " = " + value) == Failure(TokenError(edition, token))
    ensures '\n' !in token + " = " + value
  {
    PlainAssignment(edition, token, value);
    MalformedToken(edition, token, value);
  }

  lemma LeadingDotLine(edition: Edition)
    ensures ParseLine(edition, LeadingDot) == Failure(TokenError(edition, ".endpoint")) && '\n' !in LeadingDot
  {
    LeadingDotWord();
    Localhost3000Word();
    LeadingDotText();
    MalformedAssignment(edition, ".endpoint", "localhost:3000");
  }

  /** Test `invalid_token_begins_with_dot`, worded by each copy of the parser. */
  lemma LeadingDotToken(edition: Edition)
    ensures ParseDocument(edition, LeadingDot) == Failure(TokenError(edition, ".endpoint"))
  {
    LeadingDotLine(edition);
    RejectedLineDocument(edition, LeadingDot);
  }

  lemma TrailingDotLine(edition: Edition)
    ensures ParseLine(edition, TrailingDot) == Failure(TokenError(edition, "endpoint.")) && '\n' !in TrailingDot
  {
    TrailingDotWord();
    Localhost3000Word();
    TrailingDotText();
    MalformedAssignment(edition, "endpoint.", "localhost:3000");
  }

  /** Test `invalid_token_ends_with_dot`, worded by each copy of the parser. */
  lemma TrailingDotToken(edition: Edition)
    ensures ParseDocument(edition, TrailingDot) == Failure(TokenError(edition, "endpoint."))
  {
    TrailingDotLine(edition);
    RejectedLineDocument(edition, TrailingDot);
  }

  lemma DoubleDotLine(edition: Edition)
    ensures ParseLine(edition, DoubleDot) == Failure(TokenError(edition, "end..point")) && '\n' !in DoubleDot
  {
    DoubleDotWord();
    Localhost3000Word();
    DoubleDotText();
    MalformedAssignment(edition, "end..point", "localhost:3000");
  }

  /** Test `invalid_token_has_continuous_dots`, worded by each copy of the parser. */
  lemma DoubleDotToken(edition: Edition)
    ensures ParseDocument(edition, DoubleDot) == Failure(TokenError(edition, "end..point"))
  {
    DoubleDotLine(edition);
    RejectedLineDocument(edition, DoubleDot);
  }

  /** The line without `=` is one plain word. */
  lemma NoEqualsText()
    ensures Plain(NoEquals) && NoEquals[0] == 'e'
  {
  }

  lemma NoEqualsLine(edition: Edition)
    ensures ParseLine(edition, NoEquals) == Failure(FormatError(edition, NoEquals)) && '\n' !in NoEquals
  {
    NoEqualsText();
    PlainUnseparated(edition, NoEquals);
  }

  /** Test `invalid_syntax`, worded by each copy of the parser. */
  lemma MissingEquals(edition: Edition)
    ensures ParseDocument(edition, NoEquals) == Failure(FormatError(edition, NoEquals))
  {
    NoEqualsLine(edition);
    RejectedLineDocument(edition, NoEquals);
  }
}
