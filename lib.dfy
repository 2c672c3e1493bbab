/**
 * The older, self-contained copy of the map and the sysctl parser in
 * src/lib.rs. Its map is the one of src/hashmap.rs line for line, and its
 * parser is the one of src/sysctl.rs with two messages worded differently,
 * so it is the `Legacy` edition of the same model.
 */
module Lib {
  import opened Wrappers
  import opened Strings
  import opened LineSyntax
  import opened HashMap
  import opened Sysctl

  /** `parse_sysctl_conf_str`: builds the map line by line and stops at the first bad line. */
  method ParseSysctlConfStr(conf: string) returns (r: Result<SysctlParameterHashMap, string>)
    ensures r.Failure? ==> ParseDocument(Legacy, conf) == Failure(r.error)
    ensures r.Success? ==> ParseDocument(Legacy, conf) == Success(r.value.items)
  {
    r := ParseStr(Legacy, conf);
  }

  /**
   * The two copies accept the same lines and build the same entries from
   * them; they differ only in the wording of the format and token errors,
   * which name the same line or token in both.
   */
  lemma LineEditionsAgree(line: string)
    ensures ParseLine(Legacy, line).Success? <==> ParseLine(Current, line).Success?
    ensures ParseLine(Legacy, line).Success? ==> ParseLine(Legacy, line) == ParseLine(Current, line)
    ensures HasLineBreak(Trim(line)) ==> ParseLine(Legacy, line) == ParseLine(Current, line)
    ensures var t := Trim(line);
      !HasLineBreak(t) && !IsIgnored(t) && !Contains(t, "=") ==>
        && ParseLine(Legacy, line) == Failure(FormatError(Legacy, t))
        && ParseLine(Current, line) == Failure(FormatError(Current, t))
    ensures var t := Trim(line);
      forall k: nat :: !HasLineBreak(t) && !IsIgnored(t) && IsFirstOccurrence(t, "=", k) && ParseLine(Legacy, line).Failure? ==>
        && ParseLine(Legacy, line) == Failure(TokenError(Legacy, Trim(t[..k])))
        && ParseLine(Current, line) == Failure(TokenError(Current, Trim(t[..k])))
  {
    var shape := Classify(Trim(line), "=");
    if shape.Assignment? {
      var legacy := ParseToken(Legacy, shape.token, shape.payload);
      var current := ParseToken(Current, shape.token, shape.payload);
      assert legacy.Success? <==> current.Success?;
    }
    ParseLineCases(Legacy, line);
    ParseLineCases(Current, line);
    var t := Trim(line);
    forall k: nat | !HasLineBreak(t) && !IsIgnored(t) && IsFirstOccurrence(t, "=", k) && ParseLine(Legacy, line).Failure?
      ensures ParseLine(Legacy, line) == Failure(TokenError(Legacy, Trim(t[..k])))
      ensures ParseLine(Current, line) == Failure(TokenError(Current, Trim(t[..k])))
    {
      ParseTokenCases(Legacy, t[..k], t[k + 1..]);
      ParseTokenCases(Current, t[..k], t[k + 1..]);
    }
  }

  /**
   * The two copies accept the same documents and build the same map from
   * them.
   */
  lemma DocumentEditionsAgree(text: string)
    ensures ParseDocument(Legacy, text).Success? <==> ParseDocument(Current, text).Success?
    ensures ParseDocument(Legacy, text).Success? ==> ParseDocument(Legacy, text) == ParseDocument(Current, text)
  {
    var lines := Lines(text);
    var legacy := ParsedLines(Legacy, lines);
    var current := ParsedLines(Current, lines);
    forall i | 0 <= i < |lines|
      ensures legacy[i].Success? <==> current[i].Success?
      ensures legacy[i].Success? ==> legacy[i] == current[i]
    {
      LineEditionsAgree(lines[i]);
    }
    if i :| 0 <= i < |lines| && current[i].Failure? {
      assert legacy[i].Failure?;
      assert ParseDocument(Current, text).Failure? by {
        ParseDocumentOutcome(Current, text);
      }
      assert ParseDocument(Legacy, text).Failure? by {
        ParseDocumentOutcome(Legacy, text);
      }
    } else {
      assert legacy == current;
    }
  }
}
