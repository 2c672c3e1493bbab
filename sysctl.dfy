/**
 * The sysctl document parser of src/sysctl.rs: `token.path = value` lines
 * into a hierarchical parameter map. The older copy of the same parser in
 * src/lib.rs differs only in the wording of two messages, chosen here by
 * an `Edition`.
 */
module Sysctl {
  import opened Wrappers
  import opened Strings
  import opened LineSyntax
  import opened HashMap

  /** Which copy of the parser: src/sysctl.rs or the older one in src/lib.rs. */
  datatype Edition = Current | Legacy

  /** The error for a line without `=`. */
  function FormatError(edition: Edition, line: string): string {
    match edition
    case Current => "'" + line + "' is not in format `token = value`"
    case Legacy => "'" + line + "' is not format `token = value`"
  }

  /** The error for a token with a leading, trailing or doubled `.`. */
  function TokenError(edition: Edition, token: string): string {
    match edition
    case Current => InvalidHierarchy(token)
    case Legacy => "Token '" + token + "' has invalid hierarchical structure"
  }

  /** One accepted line: the token split into segments, and the value. */
  datatype SysctlParameter = SysctlParameter(path: seq<string>, value: string)

  /** `parse_token`: trims both sides and checks the dot structure of the token. */
  function ParseToken(edition: Edition, token: string, value: string): Result<SysctlParameter, string> {
    var token := Trim(token);
    var value := Trim(value);
    if !HasValidHierarchy(token) then
      Failure(TokenError(edition, token))
    else
      Success(SysctlParameter(Split(token, '.'), value))
  }

  /**
   * A token is accepted exactly when its trimmed form has a valid dot
   * structure; the path then joins back to the trimmed token, has no `.`
   * inside a segment, and has an empty segment only for the empty token;
   * the value is the trimmed value.
   */
  lemma ParseTokenCases(edition: Edition, token: string, value: string)
    ensures var r := ParseToken(edition, token, value);
      && (r.Success? <==> HasValidHierarchy(Trim(token)))
      && (r.Failure? ==> r.error == TokenError(edition, Trim(token)))
      && (r.Success? ==> Join(r.value.path, '.') == Trim(token) && r.value.value == Trim(value))
      && (r.Success? ==> forall i :: 0 <= i < |r.value.path| ==> '.' !in r.value.path[i])
      && (r.Success? ==> (Trim(token) != [] <==> [] !in r.value.path))
  {
    if HasValidHierarchy(Trim(token)) {
      PathSegmentsNonEmpty(Trim(token));
    }
  }

  /** A line `= value` has the empty token, which is the one-segment path `[""]`. */
  lemma EmptyToken(edition: Edition, token: string, value: string)
    requires Trim(token) == []
    ensures ParseToken(edition, token, value) == Success(SysctlParameter([""], Trim(value)))
  {
    assert !StartsWith([], ".") && !EndsWith([], ".") && !Contains([], "..");
  }

  /** A parsed token as the result of a line that yields an entry. */
  function AsEntry(r: Result<SysctlParameter, string>): Result<Option<SysctlParameter>, string> {
    match r
    case Success(p) => Success(Some(p))
    case Failure(err) => Failure(err)
  }

  /** `parse_line`: trims the line, then sorts it by its shape. */
  function ParseLine(edition: Edition, line: string): Result<Option<SysctlParameter>, string> {
    var line := Trim(line);
    match Classify(line, "=")
    case MultiLine(t) => Failure(NotSingleLine(t))
    case Ignored => Success(None)
    case Unseparated(t) => Failure(FormatError(edition, t))
    case Assignment(token, value) => AsEntry(ParseToken(edition, token, value))
  }

  /**
   * The cases of `parse_line`: a line break inside the trimmed line is an
   * error even on a comment; blank, `#`, `;` and `-` lines yield nothing; a
   * line without `=` is an error; otherwise the token is the text before the
   * first `=` and the value all the text after it.
   */
  lemma ParseLineCases(edition: Edition, line: string)
    ensures var t := Trim(line);
      HasLineBreak(t) ==> ParseLine(edition, line) == Failure(NotSingleLine(t))
    ensures var t := Trim(line);
      !HasLineBreak(t) && IsIgnored(t) ==> ParseLine(edition, line) == Success(None)
    ensures var t := Trim(line);
      !HasLineBreak(t) && !IsIgnored(t) && !Contains(t, "=") ==> ParseLine(edition, line) == Failure(FormatError(edition, t))
    ensures var t := Trim(line);
      forall k: nat :: !HasLineBreak(t) && !IsIgnored(t) && IsFirstOccurrence(t, "=", k) ==>
        ParseLine(edition, line) == AsEntry(ParseToken(edition, t[..k], t[k + 1..]))
  {
    var t := Trim(line);
    var shape := Classify(t, "=");
    ClassifyCases(t, "=");
    if shape.Assignment? {
      var k := |shape.token|;
      assert shape.token == t[..k] && shape.payload == t[k + 1..];
      assert ParseLine(edition, line) == AsEntry(ParseToken(edition, t[..k], t[k + 1..]));
      FirstOccurrenceUnique(t, "=", k);
    }
  }

  /** The result of every line on its own, in order. */
  function ParsedLines(edition: Edition, lines: seq<string>): (r: seq<Result<Option<SysctlParameter>, string>>)
    ensures |r| == |lines|
    ensures forall i {:trigger ParseLine(edition, lines[i])} :: 0 <= i < |lines| ==> r[i] == ParseLine(edition, lines[i])
  {
    seq(|lines|, i requires 0 <= i < |lines| => ParseLine(edition, lines[i]))
  }

  /**
   * The loop of `parse_str` from a given line on, over the lines' own
   * results: the first failure ends the parse with its error, and every
   * entry is inserted into the map built so far.
   */
  function Collect(results: seq<Result<Option<SysctlParameter>, string>>, acc: Items): Result<Items, string>
    decreases |results|
  {
    if results == [] then Success(acc)
    else match results[0]
      case Failure(err) => Failure(err)
      case Success(None) => Collect(results[1..], acc)
      case Success(Some(p)) => Collect(results[1..], Inserted(acc, p.path, p.value))
  }

  /** `parse_str` as a function of the whole text. */
  function ParseDocument(edition: Edition, text: string): Result<Items, string> {
    Collect(ParsedLines(edition, Lines(text)), map[])
  }

  /** One step of the loop of `parse_str`, stated on the lines themselves. */
  lemma ParsedLinesStep(edition: Edition, lines: seq<string>, i: nat, acc: Items)
    requires i < |lines|
    ensures var parsed := ParseLine(edition, lines[i]);
            && (parsed.Failure? ==> Collect(ParsedLines(edition, lines[i..]), acc) == Failure(parsed.error))
            && (parsed == Success(None) ==> Collect(ParsedLines(edition, lines[i..]), acc) == Collect(ParsedLines(edition, lines[i + 1..]), acc))
            && (parsed.Success? && parsed.value.Some? ==>
                  var p := parsed.value.value;
                  Collect(ParsedLines(edition, lines[i..]), acc) == Collect(ParsedLines(edition, lines[i + 1..]), Inserted(acc, p.path, p.value)))
  {
    var results := ParsedLines(edition, lines[i..]);
    assert results[0] == ParseLine(edition, lines[i]) by {
      assert lines[i..][0] == lines[i];
    }
    assert results[1..] == ParsedLines(edition, lines[i + 1..]) by {
      assert lines[i..][1..] == lines[i + 1..];
    }
  }

  /** `parse_str`: builds the map line by line and stops at the first bad line. */
  method ParseStr(edition: Edition, conf: string) returns (r: Result<SysctlParameterHashMap, string>)
    ensures r.Failure? ==> ParseDocument(edition, conf) == Failure(r.error)
    ensures r.Success? ==> ParseDocument(edition, conf) == Success(r.value.items)
  {
    var parameter := new SysctlParameterHashMap();
    var lines := Lines(conf);
    for i := 0 to |lines|
      invariant Collect(ParsedLines(edition, lines[i..]), parameter.items) == ParseDocument(edition, conf)
    {
      var parsed := ParseLine(edition, lines[i]);
      ParsedLinesStep(edition, lines, i, parameter.items);
      if parsed.Failure? {
        return Failure(parsed.error);
      }
      if parsed.value.Some? {
        parameter.Insert(parsed.value.value.path, parsed.value.value.value);
      }
    }
    assert lines[|lines|..] == [];
    return Success(parameter);
  }

  /** The entries of the accepted lines, in the order of the lines. */
  function Entries(results: seq<Result<Option<SysctlParameter>, string>>): seq<SysctlParameter>
    decreases |results|
  {
    if results == [] then []
    else
      var first := match results[0] case Success(Some(p)) => [p] case _ => [];
      first + Entries(results[1..])
  }

  /** Inserting the entries one after the other, first to last. */
  function InsertAll(acc: Items, entries: seq<SysctlParameter>): Items
    decreases |entries|
  {
    if entries == [] then acc
    else InsertAll(Inserted(acc, entries[0].path, entries[0].value), entries[1..])
  }

  /** The first failing line ends the parse, with its error. */
  lemma {:induction false} CollectFirstFailure(results: seq<Result<Option<SysctlParameter>, string>>, acc: Items, i: int)
    requires FirstFailure(results, i)
    ensures Collect(results, acc) == Failure(results[i].error)
    decreases i
  {
    if i > 0 {
      var rest := results[1..];
      assert FirstFailure(rest, i - 1) by {
        assert forall j :: 0 <= j < |rest| ==> rest[j] == results[j + 1];
      }
      var first := results[0];
      var acc' := if first.value.Some? then Inserted(acc, first.value.value.path, first.value.value.value) else acc;
      CollectFirstFailure(rest, acc', i - 1);
    }
  }

  /** When no line fails, the map is the accepted entries inserted in the order of the lines. */
  lemma {:induction false} CollectAllAccepted(results: seq<Result<Option<SysctlParameter>, string>>, acc: Items)
    requires forall i :: 0 <= i < |results| ==> results[i].Success?
    ensures Collect(results, acc) == Success(InsertAll(acc, Entries(results)))
    decreases |results|
  {
    if results != [] {
      var rest := results[1..];
      assert forall j :: 0 <= j < |rest| ==> rest[j] == results[j + 1];
      var first := results[0];
      if first.value.Some? {
        var p := first.value.value;
        CollectAllAccepted(rest, Inserted(acc, p.path, p.value));
        assert Entries(results) == [p] + Entries(rest);
      } else {
        CollectAllAccepted(rest, acc);
        assert Entries(results) == Entries(rest);
      }
    }
  }

  /**
   * The parse succeeds exactly when no line fails, and then its map is the
   * accepted entries inserted in order; otherwise its error is the error of
   * the first failing line.
   */
  lemma ParseDocumentOutcome(edition: Edition, text: string)
    ensures var results := ParsedLines(edition, Lines(text));
      ParseDocument(edition, text).Success? <==>
        forall i :: 0 <= i < |results| ==> results[i].Success?
    ensures var results := ParsedLines(edition, Lines(text));
      ParseDocument(edition, text).Success? ==>
        ParseDocument(edition, text).value == InsertAll(map[], Entries(results))
    ensures var results := ParsedLines(edition, Lines(text));
      ParseDocument(edition, text).Failure? ==>
        exists i :: FirstFailure(results, i) && ParseDocument(edition, text).error == results[i].error
  {
    var results := ParsedLines(edition, Lines(text));
    if forall i :: 0 <= i < |results| ==> results[i].Success? {
      CollectAllAccepted(results, map[]);
    } else {
      FirstFailureExists(results);
      var i :| FirstFailure(results, i);
      CollectFirstFailure(results, map[], i);
    }
  }

  /** A document of blank, comment and disabled lines parses to the empty map. */
  lemma OnlyIgnoredLines(edition: Edition, text: string)
    requires forall line :: line in Lines(text) ==>
               !HasLineBreak(Trim(line)) && IsIgnored(Trim(line))
    ensures ParseDocument(edition, text) == Success(map[])
  {
    var lines := Lines(text);
    var results := ParsedLines(edition, lines);
    forall i | 0 <= i < |results| ensures results[i] == Success(None) {
      assert lines[i] in lines;
      ParseLineCases(edition, lines[i]);
    }
    CollectAllAccepted(results, map[]);
    NoEntries(results);
  }

  lemma {:induction false} NoEntries(results: seq<Result<Option<SysctlParameter>, string>>)
    requires forall i :: 0 <= i < |results| ==> results[i] == Success(None)
    ensures Entries(results) == []
    decreases |results|
  {
    if results != [] {
      NoEntries(results[1..]);
    }
  }

  /** A document given as its lines parses as those lines. */
  lemma DocumentOfLines(edition: Edition, lines: seq<string>)
    requires |lines| >= 1 && forall i :: 0 <= i < |lines| ==> '\n' !in lines[i]
    ensures ParseDocument(edition, Join(lines, '\n')) == Collect(ParsedLines(edition, lines), map[])
  {
    SplitJoin(lines, '\n');
  }

  /** A trimmed, single, not ignored line is cut at its first `=`. */
  lemma AssignmentLine(edition: Edition, line: string, k: nat)
    requires k < |line| && line[k] == '=' && '=' !in line[..k]
    requires Trim(line) == line && !HasLineBreak(line) && !IsIgnored(line)
    ensures ParseLine(edition, line) == AsEntry(ParseToken(edition, line[..k], line[k + 1..]))
  {
    FirstOccurrenceOfChar(line, '=', k);
    ParseLineCases(edition, line);
  }

  /** Only the trimmed token and value matter. */
  lemma ParseTokenTrims(edition: Edition, token: string, value: string, token': string, value': string)
    requires Trim(token) == Trim(token') && Trim(value) == Trim(value')
    ensures ParseToken(edition, token, value) == ParseToken(edition, token', value')
  {
  }

  /** A trimmed, single, not ignored line with trimmed sides `token` and `value` around its first `=`. */
  lemma TrimmedAssignmentLine(edition: Edition, line: string, k: nat, token: string, value: string)
    requires k < |line| && line[k] == '=' && '=' !in line[..k]
    requires Trim(line) == line && !HasLineBreak(line) && !IsIgnored(line)
    requires Trim(line[..k]) == Trim(token) && Trim(line[k + 1..]) == Trim(value)
    ensures ParseLine(edition, line) == AsEntry(ParseToken(edition, token, value))
  {
    AssignmentLine(edition, line, k);
    ParseTokenTrims(edition, line[..k], line[k + 1..], token, value);
  }

  /** A trimmed, well-formed token and a trimmed value are taken as they are. */
  lemma WellFormedToken(edition: Edition, token: string, value: string)
    requires Trim(token) == token && Trim(value) == value && DotsSeparated(token)
    ensures ParseToken(edition, token, value) == Success(SysctlParameter(Split(token, '.'), value))
  {
    HierarchyByCharacters(token);
  }

  /** A trimmed, malformed token is refused whatever the value. */
  lemma MalformedToken(edition: Edition, token: string, value: string)
    requires Trim(token) == token && !HasValidHierarchy(token)
    ensures ParseToken(edition, token, value) == Failure(TokenError(edition, token))
  {
  }

  /** A trimmed, single, not ignored line without `=` is refused. */
  lemma UnseparatedLine(edition: Edition, line: string)
    requires Trim(line) == line && !HasLineBreak(line) && !IsIgnored(line) && !Contains(line, "=")
    ensures ParseLine(edition, line) == Failure(FormatError(edition, line))
  {
    ParseLineCases(edition, line);
  }
}
