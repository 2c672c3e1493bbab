/**
 * The schema document parser of src/schema.rs: `token.path => type` lines
 * into a flat map from the whole dotted token to the type its value must
 * have. The line steps are those of the sysctl parser with `=>` as the
 * separator; the token is checked but kept whole.
 */
module Schema {
  import opened Wrappers
  import opened Strings
  import opened LineSyntax

  datatype SchemaType = String | Bool | Integer

  /** The flat schema: whole dotted token to expected type. */
  type SchemaHashMap = map<string, SchemaType>

  /** The keyword that names each type on the right of `=>`. */
  function Keyword(t: SchemaType): string {
    match t
    case String => "string"
    case Bool => "bool"
    case Integer => "integer"
  }

  /** The type a right-hand side names, if it is one of the three keywords (case-sensitive). */
  function TypeOfKeyword(word: string): (r: Option<SchemaType>)
    ensures r.Some? ==> Keyword(r.value) == word
  {
    if word == "string" then Some(String)
    else if word == "bool" then Some(Bool)
    else if word == "integer" then Some(Integer)
    else None
  }

  /** The keywords and the types are in one-to-one correspondence. */
  lemma KeywordRoundTrip(t: SchemaType, word: string)
    ensures TypeOfKeyword(Keyword(t)) == Some(t)
    ensures TypeOfKeyword(word).None? <==> word !in {"string", "bool", "integer"}
  {
  }

  /** One accepted line: the whole trimmed token and its type. */
  datatype SchemaParameter = SchemaParameter(path: string, schemaType: SchemaType)

  function SchemaTypeError(path: string, word: string): string {
    "'" + path + "' has an invalid schema type '" + word + "' (must be string, bool or integer)"
  }

  function FormatError(line: string): string {
    "'" + line + "' is not in format `token => value`"
  }

  /**
   * `parse_token`: trims both sides; the dot structure of the token is
   * checked before the type keyword, so a token error hides a type error.
   */
  function ParseToken(path: string, word: string): (r: Result<SchemaParameter, string>)
    ensures r.Success? <==> HasValidHierarchy(Trim(path)) && Trim(word) in {"string", "bool", "integer"}
    ensures !HasValidHierarchy(Trim(path)) ==> r == Failure(InvalidHierarchy(Trim(path)))
    ensures HasValidHierarchy(Trim(path)) && Trim(word) !in {"string", "bool", "integer"} ==>
              r == Failure(SchemaTypeError(Trim(path), Trim(word)))
    ensures r.Success? ==> r.value.path == Trim(path) && Keyword(r.value.schemaType) == Trim(word)
  {
    var path := Trim(path);
    var word := Trim(word);
    if !HasValidHierarchy(path) then
      Failure(InvalidHierarchy(path))
    else match TypeOfKeyword(word)
      case Some(t) => Success(SchemaParameter(path, t))
      case None => Failure(SchemaTypeError(path, word))
  }

  /** A parsed token as the result of a line that yields an entry. */
  function AsEntry(r: Result<SchemaParameter, string>): Result<Option<SchemaParameter>, string> {
    match r
    case Success(p) => Success(Some(p))
    case Failure(err) => Failure(err)
  }

  /**
   * `parse_line`: the sysctl line steps with `=>` as the separator.
   */
  function ParseLine(line: string): Result<Option<SchemaParameter>, string> {
    var line := Trim(line);
    match Classify(line, "=>")
    case MultiLine(t) => Failure(NotSingleLine(t))
    case Ignored => Success(None)
    case Unseparated(t) => Failure(FormatError(t))
    case Assignment(token, word) => AsEntry(ParseToken(token, word))
  }

  /**
   * The cases of `parse_line`: a line without `=>` (an `a = b` line among
   * them) is an error, and the right-hand side keeps any later `=>`.
   */
  lemma ParseLineCases(line: string)
    ensures var t := Trim(line);
      HasLineBreak(t) ==> ParseLine(line) == Failure(NotSingleLine(t))
    ensures var t := Trim(line);
      !HasLineBreak(t) && IsIgnored(t) ==> ParseLine(line) == Success(None)
    ensures var t := Trim(line);
      !HasLineBreak(t) && !IsIgnored(t) && !Contains(t, "=>") ==> ParseLine(line) == Failure(FormatError(t))
    ensures var t := Trim(line);
      forall k: nat :: !HasLineBreak(t) && !IsIgnored(t) && IsFirstOccurrence(t, "=>", k) ==>
        ParseLine(line) == AsEntry(ParseToken(t[..k], t[k + 2..]))
  {
    var t := Trim(line);
    var shape := Classify(t, "=>");
    ClassifyCases(t, "=>");
    if shape.Assignment? {
      var k := |shape.token|;
      assert shape.token == t[..k] && shape.payload == t[k + 2..];
      assert ParseLine(line) == AsEntry(ParseToken(t[..k], t[k + 2..]));
      FirstOccurrenceUnique(t, "=>", k);
    }
  }

  /**
   * Only the first `=>` separates: in `a => b => c` the right-hand side is
   * `b => c`, which is no type keyword, so a well-formed token gets the type
   * error naming that whole right-hand side.
   */
  lemma ChainedArrows(line: string, k: nat)
    requires var t := Trim(line);
      !HasLineBreak(t) && !IsIgnored(t) && IsFirstOccurrence(t, "=>", k)
    requires var t := Trim(line);
      HasValidHierarchy(Trim(t[..k])) && Contains(Trim(t[k + 2..]), "=>")
    ensures var t := Trim(line);
      ParseLine(line) == Failure(SchemaTypeError(Trim(t[..k]), Trim(t[k + 2..])))
  {
    var t := Trim(line);
    assert ParseLine(line) == AsEntry(ParseToken(t[..k], t[k + 2..])) by {
      ParseLineCases(line);
    }
    ArrowIsNoKeyword(Trim(t[k + 2..]));
  }

  /** A right-hand side that holds `=>` names no type. */
  lemma ArrowIsNoKeyword(word: string)
    requires Contains(word, "=>")
    ensures word !in {"string", "bool", "integer"}
  {
    AbsentFirstChar("string", "=>");
    AbsentFirstChar("bool", "=>");
    AbsentFirstChar("integer", "=>");
  }

  /** A pattern whose first character does not occur does not occur. */
  lemma AbsentFirstChar(s: string, pat: string)
    requires |pat| >= 1 && pat[0] !in s
    ensures !Contains(s, pat)
  {
    forall j: nat | j + |pat| <= |s| ensures !OccursAt(s, pat, j) {
      assert s[j..j + |pat|][0] == s[j];
    }
  }

  /** The result of every line on its own, in order. */
  function ParsedLines(lines: seq<string>): (r: seq<Result<Option<SchemaParameter>, string>>)
    ensures |r| == |lines|
    ensures forall i :: 0 <= i < |lines| ==> r[i] == ParseLine(lines[i])
  {
    seq(|lines|, i requires 0 <= i < |lines| => ParseLine(lines[i]))
  }

  /**
   * The loop of `parse_str` from a given line on: the first failure ends the
   * parse with its error, and every entry is stored under its token.
   */
  function Collect(results: seq<Result<Option<SchemaParameter>, string>>, acc: SchemaHashMap): Result<SchemaHashMap, string>
    decreases |results|
  {
    if results == [] then Success(acc)
    else match results[0]
      case Failure(err) => Failure(err)
      case Success(None) => Collect(results[1..], acc)
      case Success(Some(p)) => Collect(results[1..], acc[p.path := p.schemaType])
  }

  /** `parse_str` as a function of the whole text. */
  function ParseDocument(text: string): Result<SchemaHashMap, string> {
    Collect(ParsedLines(Lines(text)), map[])
  }

  /** One step of the loop: result `i` decides whether the parse goes on, and with which map. */
  lemma CollectStep(results: seq<Result<Option<SchemaParameter>, string>>, acc: SchemaHashMap, i: nat)
    requires i < |results|
    ensures results[i].Failure? ==> Collect(results[i..], acc) == Failure(results[i].error)
    ensures results[i] == Success(None) ==> Collect(results[i..], acc) == Collect(results[i + 1..], acc)
    ensures results[i].Success? && results[i].value.Some? ==>
              var p := results[i].value.value;
              Collect(results[i..], acc) == Collect(results[i + 1..], acc[p.path := p.schemaType])
  {
    assert results[i..][0] == results[i] && results[i..][1..] == results[i + 1..];
  }

  /** `parse_str`: fills a local map line by line and stops at the first bad line. */
  method ParseStr(conf: string) returns (r: Result<SchemaHashMap, string>)
    ensures r == ParseDocument(conf)
  {
    var parameter: SchemaHashMap := map[];
    var lines := Lines(conf);
    ghost var results := ParsedLines(lines);
    for i := 0 to |lines|
      invariant Collect(results[i..], parameter) == ParseDocument(conf)
    {
      var parsed := ParseLine(lines[i]);
      assert parsed == results[i];
      CollectStep(results, parameter, i);
      if parsed.Failure? {
        return Failure(parsed.error);
      }
      if parsed.value.Some? {
        parameter := parameter[parsed.value.value.path := parsed.value.value.schemaType];
      }
    }
    assert results[|lines|..] == [];
    return Success(parameter);
  }

  /** The entries of the accepted lines, in the order of the lines. */
  function Entries(results: seq<Result<Option<SchemaParameter>, string>>): seq<SchemaParameter>
    decreases |results|
  {
    if results == [] then []
    else
      var first := match results[0] case Success(Some(p)) => [p] case _ => [];
      first + Entries(results[1..])
  }

  /** Storing the entries one after the other, first to last. */
  function StoreAll(acc: SchemaHashMap, entries: seq<SchemaParameter>): SchemaHashMap
    decreases |entries|
  {
    if entries == [] then acc
    else StoreAll(acc[entries[0].path := entries[0].schemaType], entries[1..])
  }

  /** Entry `i` is the last one for `key`. */
  predicate LastFor(entries: seq<SchemaParameter>, key: string, i: int) {
    && 0 <= i < |entries|
    && entries[i].path == key
    && forall j :: i < j < |entries| ==> entries[j].path != key
  }

  /** A key holds the type of its last entry. */
  lemma {:induction false} StoreAllLast(acc: SchemaHashMap, entries: seq<SchemaParameter>, key: string, i: int)
    requires LastFor(entries, key, i)
    ensures key in StoreAll(acc, entries) && StoreAll(acc, entries)[key] == entries[i].schemaType
    decreases |entries|
  {
    var rest := entries[1..];
    var acc' := acc[entries[0].path := entries[0].schemaType];
    assert StoreAll(acc, entries) == StoreAll(acc', rest);
    if i > 0 {
      assert LastFor(rest, key, i - 1) by {
        assert forall j :: i - 1 < j < |rest| ==> rest[j] == entries[j + 1];
      }
      StoreAllLast(acc', rest, key, i - 1);
    } else {
      StoreAllUntouched(acc', rest, key);
    }
  }

  /** A key no entry names keeps its old type, or stays absent. */
  lemma {:induction false} StoreAllUntouched(acc: SchemaHashMap, entries: seq<SchemaParameter>, key: string)
    requires forall i :: 0 <= i < |entries| ==> entries[i].path != key
    ensures key in StoreAll(acc, entries) <==> key in acc
    ensures key in acc ==> StoreAll(acc, entries)[key] == acc[key]
    decreases |entries|
  {
    if entries != [] {
      var rest := entries[1..];
      var acc' := acc[entries[0].path := entries[0].schemaType];
      assert StoreAll(acc, entries) == StoreAll(acc', rest);
      assert entries[0].path != key;
      assert forall j :: 0 <= j < |rest| ==> rest[j].path != key by {
        assert forall j :: 0 <= j < |rest| ==> rest[j] == entries[j + 1];
      }
      StoreAllUntouched(acc', rest, key);
    }
  }

  /** No key appears that was not there before or named by an entry. */
  lemma {:induction false} StoreAllOrigin(acc: SchemaHashMap, entries: seq<SchemaParameter>, key: string)
    requires key in StoreAll(acc, entries)
    ensures key in acc || exists i :: 0 <= i < |entries| && entries[i].path == key
    decreases |entries|
  {
    if entries != [] && key !in acc && key != entries[0].path {
      var rest := entries[1..];
      var acc' := acc[entries[0].path := entries[0].schemaType];
      assert StoreAll(acc, entries) == StoreAll(acc', rest);
      StoreAllOrigin(acc', rest, key);
      var i :| 0 <= i < |rest| && rest[i].path == key;
      assert entries[i + 1].path == key;
    }
  }

  /**
   * After storing the entries, a key holds the type of its last entry, keeps
   * its old type when no entry names it, and no other key appears.
   */
  lemma StoreAllLastWins(acc: SchemaHashMap, entries: seq<SchemaParameter>, key: string)
    ensures forall i :: LastFor(entries, key, i) ==>
              key in StoreAll(acc, entries) && StoreAll(acc, entries)[key] == entries[i].schemaType
    ensures (forall i :: 0 <= i < |entries| ==> entries[i].path != key) ==>
              (key in StoreAll(acc, entries) <==> key in acc) &&
              (key in acc ==> StoreAll(acc, entries)[key] == acc[key])
    ensures key in StoreAll(acc, entries) ==>
              key in acc || exists i :: 0 <= i < |entries| && entries[i].path == key
  {
    forall i | LastFor(entries, key, i)
      ensures key in StoreAll(acc, entries) && StoreAll(acc, entries)[key] == entries[i].schemaType
    {
      StoreAllLast(acc, entries, key, i);
    }
    if forall i :: 0 <= i < |entries| ==> entries[i].path != key {
      StoreAllUntouched(acc, entries, key);
    }
    if key in StoreAll(acc, entries) {
      StoreAllOrigin(acc, entries, key);
    }
  }

  /** When no line fails, the map is the accepted entries stored in the order of the lines. */
  lemma {:induction false} CollectAllAccepted(results: seq<Result<Option<SchemaParameter>, string>>, acc: SchemaHashMap)
    requires forall i :: 0 <= i < |results| ==> results[i].Success?
    ensures Collect(results, acc) == Success(StoreAll(acc, Entries(results)))
    decreases |results|
  {
    if results != [] {
      var rest := results[1..];
      assert forall j :: 0 <= j < |rest| ==> rest[j] == results[j + 1];
      var first := results[0];
      if first.value.Some? {
        var p := first.value.value;
        CollectAllAccepted(rest, acc[p.path := p.schemaType]);
        assert Entries(results) == [p] + Entries(rest);
      } else {
        CollectAllAccepted(rest, acc);
        assert Entries(results) == Entries(rest);
      }
    }
  }

  /** The first failing line ends the parse, with its error. */
  lemma {:induction false} CollectFirstFailure(results: seq<Result<Option<SchemaParameter>, string>>, acc: SchemaHashMap, i: int)
    requires FirstFailure(results, i)
    ensures Collect(results, acc) == Failure(results[i].error)
    decreases i
  {
    if i > 0 {
      var rest := results[1..];
      assert FirstFailure(rest, i - 1) by {
        assert forall j :: 0 <= j < |rest| ==> rest[j] == results[j + 1];
      }
      var first := results[0];
      var acc' := if first.value.Some? then acc[first.value.value.path := first.value.value.schemaType] else acc;
      CollectFirstFailure(rest, acc', i - 1);
    }
  }

  /**
   * The parse succeeds exactly when no line fails, and then the type of each
   * token is the one on its last line; otherwise the error is that of the
   * first failing line and there is no partial map.
   */
  lemma ParseDocumentOutcome(text: string, key: string)
    ensures var results := ParsedLines(Lines(text));
      ParseDocument(text).Success? <==> forall i :: 0 <= i < |results| ==> results[i].Success?
    ensures var results := ParsedLines(Lines(text));
      ParseDocument(text).Success? ==>
        && (key in ParseDocument(text).value <==>
              exists i :: 0 <= i < |Entries(results)| && Entries(results)[i].path == key)
        && forall i :: LastFor(Entries(results), key, i) ==>
             ParseDocument(text).value[key] == Entries(results)[i].schemaType
    ensures var results := ParsedLines(Lines(text));
      ParseDocument(text).Failure? ==>
        exists i :: FirstFailure(results, i) && ParseDocument(text).error == results[i].error
  {
    var results := ParsedLines(Lines(text));
    if forall i :: 0 <= i < |results| ==> results[i].Success? {
      CollectAllAccepted(results, map[]);
      var entries := Entries(results);
      StoreAllLastWins(map[], entries, key);
      if exists i :: 0 <= i < |entries| && entries[i].path == key {
        var i :| 0 <= i < |entries| && entries[i].path == key;
        LastEntryExists(entries, key, i);
      }
    } else {
      FirstFailureExists(results);
      var i :| FirstFailure(results, i);
      CollectFirstFailure(results, map[], i);
    }
  }

  /** An entry for `key` is followed by a last one. */
  lemma {:induction false} LastEntryExists(entries: seq<SchemaParameter>, key: string, i: int)
    requires 0 <= i < |entries| && entries[i].path == key
    ensures exists j :: LastFor(entries, key, j)
    decreases |entries| - i
  {
    if !LastFor(entries, key, i) {
      var j :| i < j < |entries| && entries[j].path == key;
      LastEntryExists(entries, key, j);
    }
  }
}
