/**
 * The steps that the sysctl parser (separator `=`) and the schema parser
 * (separator `=>`) share: trim the line, refuse an embedded line break,
 * skip blank, comment and disabled lines, cut at the first separator, and
 * check and split the dotted token.
 */
module LineSyntax {
  import opened Wrappers
  import opened Strings

  /** The trimmed line still holds a line feed or a carriage return. */
  predicate HasLineBreak(t: string) {
    '\n' in t || '\r' in t
  }

  /** Blank lines, `#` and `;` comments and `-` disabled lines produce no entry. */
  predicate IsIgnored(t: string) {
    t == [] || StartsWith(t, "#") || StartsWith(t, ";") || StartsWith(t, "-")
  }

  /** `pat` occurs at `k` and nowhere to the left of it. */
  predicate IsFirstOccurrence(s: string, pat: string, k: nat) {
    OccursAt(s, pat, k) && forall j: nat :: j < k ==> !OccursAt(s, pat, j)
  }

  /** A one-character pattern first occurs where the character first appears. */
  lemma FirstOccurrenceOfChar(s: string, c: char, k: nat)
    requires k < |s| && s[k] == c && c !in s[..k]
    ensures IsFirstOccurrence(s, [c], k)
  {
    assert s[k..k + 1] == [c];
    forall j: nat | j < k ensures !OccursAt(s, [c], j) {
      assert s[j] == s[..k][j];
    }
  }

  /** There is only one first occurrence. */
  lemma FirstOccurrenceUnique(s: string, pat: string, k: nat)
    requires IsFirstOccurrence(s, pat, k)
    ensures forall j: nat :: IsFirstOccurrence(s, pat, j) ==> j == k
  {
  }

  /** How one input line reads, before its token and right-hand side are interpreted. */
  datatype LineShape =
    | MultiLine(line: string)
    | Ignored
    | Unseparated(line: string)
    | Assignment(token: string, payload: string)

  /**
   * The classification both parsers apply to a trimmed line, in the order
   * they apply it. An assignment carries the untrimmed text on either side
   * of the first separator; later separators stay in the payload.
   */
  function Classify(t: string, sep: string): LineShape {
    if HasLineBreak(t) then MultiLine(t)
    else if IsIgnored(t) then Ignored
    else match FindFirst(t, sep)
      case None => Unseparated(t)
      case Some(k) => Assignment(t[..k], t[k + |sep|..])
  }

  /**
   * Each shape arises exactly in its case, and an assignment is cut at the
   * first separator, which it leaves out.
   */
  lemma ClassifyCases(t: string, sep: string)
    ensures var r := Classify(t, sep);
      && (r.MultiLine? <==> HasLineBreak(t))
      && (r.Ignored? <==> !HasLineBreak(t) && IsIgnored(t))
      && (r.Unseparated? <==> !HasLineBreak(t) && !IsIgnored(t) && !Contains(t, sep))
      && (r.MultiLine? || r.Unseparated? ==> r.line == t)
      && (r.Assignment? ==> IsFirstOccurrence(t, sep, |r.token|) && t == r.token + sep + r.payload)
  {
    if !HasLineBreak(t) && !IsIgnored(t) && FindFirst(t, sep).Some? {
      var k := FindFirst(t, sep).value;
      assert t == t[..k] + sep + t[k + |sep|..];
    }
  }

  /** A token is well formed when it neither starts nor ends with `.` and has no `..`. */
  predicate HasValidHierarchy(token: string) {
    !(StartsWith(token, ".") || EndsWith(token, ".") || Contains(token, ".."))
  }

  /** The same condition read character by character, for a non-empty token. */
  predicate DotsSeparated(t: string) {
    && t != []
    && t[0] != '.'
    && t[|t| - 1] != '.'
    && forall i :: 0 <= i < |t| - 1 ==> !(t[i] == '.' && t[i + 1] == '.')
  }

  lemma HierarchyByCharacters(t: string)
    ensures (t != [] && HasValidHierarchy(t)) <==> DotsSeparated(t)
  {
    if DotsSeparated(t) {
      forall k: nat | k <= |t| ensures !OccursAt(t, "..", k) {
        if k + 2 <= |t| {
          assert t[k..k + 2] == [t[k], t[k + 1]];
        }
      }
    }
    if t != [] && HasValidHierarchy(t) {
      forall i | 0 <= i < |t| - 1 ensures !(t[i] == '.' && t[i + 1] == '.') {
        assert !OccursAt(t, "..", i);
        assert t[i..i + 2] == [t[i], t[i + 1]];
      }
      assert !StartsWith(t, ".") && [t[0]] <= t;
      assert !EndsWith(t, ".") && t[|t| - 1..] == [t[|t| - 1]];
    }
  }

  /** Joined dot-free segments are dot-separated exactly when no segment is empty. */
  lemma {:induction false} JoinDotsSeparated(segments: seq<string>)
    requires |segments| >= 1
    requires forall i :: 0 <= i < |segments| ==> '.' !in segments[i]
    ensures DotsSeparated(Join(segments, '.')) <==> forall i :: 0 <= i < |segments| ==> segments[i] != []
  {
    if |segments| == 1 {
      var s := segments[0];
      if s != [] {
        assert s[0] in s && s[|s| - 1] in s;
        forall i | 0 <= i < |s| - 1 ensures s[i] != '.' {
          assert s[i] in s;
        }
      }
    } else {
      var s, rest := segments[0], segments[1..];
      var j := Join(rest, '.');
      var w := s + ['.'] + j;
      assert w == Join(segments, '.');
      JoinDotsSeparated(rest);
      assert forall i :: 0 <= i < |s| ==> s[i] in s;
      if forall i :: 0 <= i < |segments| ==> segments[i] != [] {
        assert forall i :: 0 <= i < |rest| ==> rest[i] == segments[i + 1];
        assert DotsSeparated(j);
        assert w[0] == s[0];
        assert w[|w| - 1] == j[|j| - 1];
        forall i | 0 <= i < |w| - 1 ensures !(w[i] == '.' && w[i + 1] == '.') {
          if i < |s| {
            assert w[i] == s[i];
          } else if i == |s| {
            assert w[i + 1] == j[0];
          } else {
            assert w[i] == j[i - |s| - 1] && w[i + 1] == j[i - |s|];
          }
        }
      }
      assert s == [] ==> w[0] == '.';
      assert j == [] ==> w[|w| - 1] == '.';
      assert w[|s|] == '.';
      assert j != [] ==> w[|s| + 1] == j[0] && j[|j| - 1] == w[|w| - 1];
      if DotsSeparated(w) {
        forall i | 0 <= i < |j| - 1 ensures !(j[i] == '.' && j[i + 1] == '.') {
          assert j[i] == w[|s| + 1 + i] && j[i + 1] == w[|s| + 2 + i];
        }
        assert DotsSeparated(j);
        forall i | 0 <= i < |segments| ensures segments[i] != [] {
          if i > 0 {
            assert segments[i] == rest[i - 1];
          }
        }
      }
    }
  }

  /**
   * A token passes the hierarchy check and is non-empty exactly when every
   * segment of its split at `.` is non-empty; an empty token is the one
   * valid token with an empty segment.
   */
  lemma PathSegmentsNonEmpty(token: string)
    ensures (token != [] && HasValidHierarchy(token)) <==> [] !in Split(token, '.')
    ensures token == [] ==> HasValidHierarchy(token) && Split(token, '.') == [[]]
  {
    var segments := Split(token, '.');
    HierarchyByCharacters(token);
    JoinDotsSeparated(segments);
    assert Join(segments, '.') == token;
    assert ([] !in segments) <==> forall i :: 0 <= i < |segments| ==> segments[i] != [];
  }

  /** The error every parser reports for a line that still holds a line break. */
  function NotSingleLine(line: string): string {
    "'" + line + "' is not a single line"
  }

  /** The wording of sysctl.rs and schema.rs for a malformed token. */
  function InvalidHierarchy(token: string): string {
    "Token '" + token + "' has an invalid hierarchical structure"
  }

  /** Line result `i` is a failure and every result before it is not. */
  predicate FirstFailure<T>(results: seq<Result<T, string>>, i: int) {
    && 0 <= i < |results|
    && results[i].Failure?
    && forall j :: 0 <= j < i ==> results[j].Success?
  }

  /** When some line fails, one of them fails first. */
  lemma {:induction false} FirstFailureExists<T>(results: seq<Result<T, string>>)
    requires exists i :: 0 <= i < |results| && results[i].Failure?
    ensures exists i :: FirstFailure(results, i)
    decreases |results|
  {
    if results[0].Failure? {
      assert FirstFailure(results, 0);
    } else {
      var rest := results[1..];
      var i :| 0 <= i < |results| && results[i].Failure?;
      assert rest[i - 1] == results[i];
      FirstFailureExists(rest);
      var j :| FirstFailure(rest, j);
      assert forall k :: 0 <= k < |rest| ==> rest[k] == results[k + 1];
      assert FirstFailure(results, j + 1);
    }
  }

  /** There is only one first failure. */
  lemma FirstFailureUnique<T>(results: seq<Result<T, string>>, i: int, j: int)
    requires FirstFailure(results, i) && FirstFailure(results, j)
    ensures i == j
  {
    assert !(i < j) && !(j < i);
  }
}
