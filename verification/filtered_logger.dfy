/**
 Model of `filter_datum` from the personal-data logger.

 For every field name, in list order, the source substitutes every match of the
 Python regular expression `(?P<field>F)=(?P<val>.*?)(?:;|$)` by
 `F=` + redaction + separator. The regular expression is replaced here by an
 explicit left-to-right scan over the characters of the message that follows
 Python's `re` semantics for this one pattern:
   - `.` matches any character except a newline;
   - `.*?` is lazy, so the value stops at the first place where `;` or `$` can match;
   - `$` (no MULTILINE flag) matches at the end of the string or just before a
     newline that is the last character;
   - `re.sub` scans left to right and resumes after each match, so matches never overlap.
 A field name is spliced into the pattern as written, so the scan is faithful
 for field names without regular-expression metacharacters.
*/
module FilteredLogger {
  import opened Wrappers

  /** Characters that have a special meaning in a Python regular expression. */
  const Metacharacters: set<char> :=
    {'.', '^', '$', '*', '+', '?', '{', '}', '[', ']', '\\', '|', '(', ')'}

  /** A field name that the source's pattern reads as plain text. */
  predicate IsLiteral(field: string) {
    forall i :: 0 <= i < |field| ==> field[i] !in Metacharacters
  }

  /** `needle` occurs in `m` starting at position `k`. */
  predicate IsPrefixAt(needle: string, m: string, k: nat) {
    k + |needle| <= |m| && m[k..k + |needle|] == needle
  }

  /** `needle` occurs somewhere in `m`. */
  predicate Occurs(needle: string, m: string) {
    exists k: nat :: k <= |m| && IsPrefixAt(needle, m, k)
  }

  /** Where `$` matches: the end of the string, or just before a final newline. */
  predicate AtEnd(m: string, q: nat) {
    q == |m| || (q == |m| - 1 && m[q] == '\n')
  }

  /** Where the terminator `(?:;|$)` matches. */
  predicate TerminatesAt(m: string, q: nat)
    requires q <= |m|
  {
    (q < |m| && m[q] == ';') || AtEnd(m, q)
  }

  /** m[p..v] is a run of characters that `.` matches and that holds no `;`. */
  predicate PlainRun(m: string, p: nat, v: nat)
    requires p <= v <= |m|
  {
    forall q :: p <= q < v ==> m[q] != ';' && m[q] != '\n'
  }

  /**
   m[i..e] is one match of the pattern for `field` found at position i: the
   field name, `=`, the shortest value (no `;`, no newline) and then either a
   consumed `;` or the end of the line.
  */
  ghost predicate IsMatch(field: string, m: string, i: nat, e: nat) {
    var p := i + |field| + 1;
    && p <= e <= |m|
    && IsPrefixAt(field + "=", m, i)
    && ((p < e && m[e - 1] == ';' && PlainRun(m, p, e - 1)) || (AtEnd(m, e) && PlainRun(m, p, e)))
  }

  /**
   The lazy value `.*?` starting at position p: the first position at which the
   terminator matches, provided no newline comes before it.
  */
  function ValueEnd(m: string, p: nat): (r: Option<nat>)
    requires p <= |m|
    decreases |m| - p
    ensures r.Some? ==>
      p <= r.value <= |m| && TerminatesAt(m, r.value) && PlainRun(m, p, r.value)
    ensures r.None? ==>
      exists q :: p <= q < |m| && m[q] == '\n' && !AtEnd(m, q) && PlainRun(m, p, q)
  {
    if TerminatesAt(m, p) then Some(p)
    else if m[p] == '\n' then None
    else ValueEnd(m, p + 1)
  }

  /** The end of the match of the pattern for `field` at position i, if the pattern matches there. */
  function MatchEnd(field: string, m: string, i: nat): (r: Option<nat>)
    requires i <= |m|
    ensures r.Some? ==> i < r.value <= |m| && IsMatch(field, m, i, r.value)
    ensures r.Some? ==> forall e :: IsMatch(field, m, i, e) ==> e == r.value
    ensures r.None? ==> forall e :: !IsMatch(field, m, i, e)
  {
    var p := i + |field| + 1;
    if IsPrefixAt(field + "=", m, i) then
      match ValueEnd(m, p)
      case Some(v) => if v < |m| && m[v] == ';' then Some(v + 1) else Some(v)
      case None => None
    else None
  }

  /** What the source's substitution callback returns for every match: the field name, `=`, the redaction and the separator. */
  function Replacement(field: string, redaction: string, separator: string): string {
    field + "=" + redaction + separator
  }

  /** `re.sub` of the pattern for one field over m[i..], scanning from position i. */
  function RedactFrom(field: string, redaction: string, m: string, separator: string, i: nat): string
    requires i <= |m|
    decreases |m| - i
  {
    if i == |m| then ""
    else match MatchEnd(field, m, i)
      case Some(e) => Replacement(field, redaction, separator) + RedactFrom(field, redaction, m, separator, e)
      case None => [m[i]] + RedactFrom(field, redaction, m, separator, i + 1)
  }

  /** One iteration of the loop of `filter_datum`: every match for `field` in `message` rewritten. */
  function RedactField(field: string, redaction: string, message: string, separator: string): (r: string)
    ensures !Occurs(field + "=", message) ==> r == message
  {
    var r := RedactFrom(field, redaction, message, separator, 0);
    assert !Occurs(field + "=", message) ==> r == message by {
      if !Occurs(field + "=", message) {
        NoMatchFrom(field, redaction, message, separator, 0);
      }
    }
    r
  }

  /** `filter_datum(fields, redaction, message, separator)`: the fields applied one after another. */
  function FilterDatum(fields: seq<string> := [], redaction: string := "xxx", message: string := "", separator: string := ";"): (r: string)
    requires forall f | f in fields :: IsLiteral(f)
    ensures (forall f | f in fields :: !Occurs(f + "=", message)) ==> r == message
  {
    if fields == [] then message
    else FilterDatum(fields[1..], redaction, RedactField(fields[0], redaction, message, separator), separator)
  }

  /** Where the pattern matches nowhere in m[i..], the scan copies m[i..] unchanged. */
  lemma {:induction false} NoMatchFrom(field: string, redaction: string, m: string, separator: string, i: nat)
    requires i <= |m|
    requires forall k :: i <= k < |m| ==> MatchEnd(field, m, k).None?
    ensures RedactFrom(field, redaction, m, separator, i) == m[i..]
    decreases |m| - i
  {
    if i < |m| {
      NoMatchFrom(field, redaction, m, separator, i + 1);
      assert m[i..] == [m[i]] + m[i + 1..];
    }
  }

  /**
   Leftmost-first, non-overlapping: when the first match at or after position i
   starts at k and ends at e, the text before k is copied character for
   character, the match becomes `field=` + redaction + separator, and scanning
   resumes at e.
  */
  lemma {:induction false} LeftmostMatch(field: string, redaction: string, m: string, separator: string, i: nat, k: nat, e: nat)
    requires i <= k <= |m|
    requires forall j :: i <= j < k ==> MatchEnd(field, m, j).None?
    requires MatchEnd(field, m, k) == Some(e)
    ensures RedactFrom(field, redaction, m, separator, i)
         == m[i..k] + (Replacement(field, redaction, separator) + RedactFrom(field, redaction, m, separator, e))
    decreases k - i
  {
    if i < k {
      LeftmostMatch(field, redaction, m, separator, i + 1, k, e);
      CopiedBeforeMatch(field, redaction, m, separator, i, k,
        Replacement(field, redaction, separator) + RedactFrom(field, redaction, m, separator, e));
    } else {
      MatchRewritten(field, redaction, m, separator, k, e);
      assert m[i..k] == [];
    }
  }

  /** At a position where the pattern does not match, the scan copies the character. */
  lemma NoMatchCopied(field: string, redaction: string, m: string, separator: string, k: nat)
    requires k < |m|
    requires MatchEnd(field, m, k).None?
    ensures RedactFrom(field, redaction, m, separator, k)
         == [m[k]] + RedactFrom(field, redaction, m, separator, k + 1)
  {
  }

  /** One more copied character in front of the text before a match. */
  lemma CopiedBeforeMatch(field: string, redaction: string, m: string, separator: string, i: nat, k: nat, tail: string)
    requires i < k <= |m|
    requires MatchEnd(field, m, i).None?
    requires RedactFrom(field, redaction, m, separator, i + 1) == m[i + 1..k] + tail
    ensures RedactFrom(field, redaction, m, separator, i) == m[i..k] + tail
  {
    NoMatchCopied(field, redaction, m, separator, i);
    calc {
      RedactFrom(field, redaction, m, separator, i);
      [m[i]] + (m[i + 1..k] + tail);
      ([m[i]] + m[i + 1..k]) + tail;
      { assert [m[i]] + m[i + 1..k] == m[i..k]; }
      m[i..k] + tail;
    }
  }

  /** At a position where the pattern matches, the scan emits the replacement and resumes after the match. */
  lemma MatchRewritten(field: string, redaction: string, m: string, separator: string, k: nat, e: nat)
    requires k <= |m|
    requires MatchEnd(field, m, k) == Some(e)
    ensures e <= |m|
    ensures RedactFrom(field, redaction, m, separator, k)
         == Replacement(field, redaction, separator) + RedactFrom(field, redaction, m, separator, e)
  {
  }

  /** Fields are applied in list order, each to the output of the ones before it. */
  lemma {:induction false} FilterDatumAppend(fields1: seq<string>, fields2: seq<string>, redaction: string, message: string, separator: string)
    requires forall f | f in fields1 :: IsLiteral(f)
    requires forall f | f in fields2 :: IsLiteral(f)
    ensures FilterDatum(fields1 + fields2, redaction, message, separator)
         == FilterDatum(fields2, redaction, FilterDatum(fields1, redaction, message, separator), separator)
    decreases |fields1|
  {
    if fields1 != [] {
      assert (fields1 + fields2)[1..] == fields1[1..] + fields2;
      FilterDatumAppend(fields1[1..], fields2, redaction, RedactField(fields1[0], redaction, message, separator), separator);
    } else {
      assert fields1 + fields2 == fields2;
    }
  }

  /** A one-element field list is exactly one substitution pass. */
  lemma FilterDatumSingle(field: string, redaction: string, message: string, separator: string)
    requires IsLiteral(field)
    ensures FilterDatum([field], redaction, message, separator) == RedactField(field, redaction, message, separator)
  {
  }

  /** No position whose character differs from the first character of `needle` starts an occurrence of it. */
  lemma AbsentFirstChar(needle: string, m: string, lo: nat, hi: nat)
    requires |needle| > 0 && lo <= hi <= |m|
    requires forall j :: lo <= j < hi ==> m[j] != needle[0]
    ensures forall j :: lo <= j < hi ==> !IsPrefixAt(needle, m, j)
  {
    forall j | lo <= j < hi
      ensures !IsPrefixAt(needle, m, j)
    {
      if j + |needle| <= |m| {
        assert m[j..j + |needle|][0] == m[j];
      }
    }
  }

  /** A message whose only match for `field` spans m[k..e] is rewritten there and copied everywhere else. */
  lemma OneMatch(field: string, redaction: string, m: string, separator: string, k: nat, e: nat)
    requires k <= |m|
    requires forall j :: 0 <= j < k ==> !IsPrefixAt(field + "=", m, j)
    requires MatchEnd(field, m, k) == Some(e)
    requires forall j :: e <= j < |m| ==> !IsPrefixAt(field + "=", m, j)
    ensures e <= |m|
    ensures RedactField(field, redaction, m, separator) == m[..k] + Replacement(field, redaction, separator) + m[e..]
  {
    LeftmostMatch(field, redaction, m, separator, 0, k, e);
    NoMatchFrom(field, redaction, m, separator, e);
  }

  /**
   A line `before` + `field=value` + terminator + `after`, where neither
   `before` nor `after` holds the first character of `field=` and the value
   holds no `;` or newline, has exactly that one assignment rewritten. The
   terminator is a `;`, or nothing when the assignment ends the line.
  */
  lemma SingleAssignment(field: string, redaction: string, m: string, separator: string, before: string, value: string, terminator: string, after: string, expected: string)
    requires m == before + (field + "=") + value + terminator + after
    requires expected == before + Replacement(field, redaction, separator) + after
    requires IsLiteral(field)
    requires (field + "=")[0] !in before && (field + "=")[0] !in after
    requires forall q :: 0 <= q < |value| ==> value[q] != ';' && value[q] != '\n'
    requires terminator == ";" || (terminator == "" && after == "")
    ensures FilterDatum([field], redaction, m, separator) == expected
  {
    var needle := field + "=";
    var k, p := |before|, |before| + |needle|;
    var v := p + |value|;
    var e := v + |terminator|;
    assert m[k..p] == needle;
    assert m[p..v] == value;
    assert m[e..] == after;
    assert m[..k] == before;
    assert PlainRun(m, p, v) by {
      forall q | p <= q < v ensures m[q] != ';' && m[q] != '\n' {
        assert m[q] == m[p..v][q - p];
      }
    }
    if terminator == ";" {
      assert m[v] == ';';
    } else {
      assert v == |m|;
    }
    assert IsMatch(field, m, k, e);
    AbsentFirstChar(needle, m, 0, k);
    AbsentFirstChar(needle, m, e, |m|);
    OneMatch(field, redaction, m, separator, k, e);
  }

  // The examples below take the message as a parameter fixed by `requires m == "..."`
  // rather than writing the literal into the ensures. With the literal inline the
  // verifier unfolds the whole scan over the constant string and runs out of
  // resources; through a parameter it only uses `SingleAssignment`, which needs the
  // literal split into its parts (`LeadingAssignmentParts` does that split for one
  // example whose split is itself expensive).

  /** The middle assignment is redacted and the `;` it consumed is replaced by the separator. */
  lemma ExampleMiddleAssignment(m: string)
    requires m == "name=Bob;password=secret;age=9"
    ensures FilterDatum(["password"], "xxx", m, ";") == "name=Bob;password=xxx;age=9"
  {
    assert m == "name=Bob;" + ("password" + "=") + "secret" + ";" + "age=9";
    SingleAssignment("password", "xxx", m, ";", "name=Bob;", "secret", ";", "age=9", "name=Bob;password=xxx;age=9");
  }

  /** An assignment that ends the line still gets the separator appended. */
  lemma ExampleTrailingAssignment(m: string)
    requires m == "name=Bob;password=secret"
    ensures FilterDatum(["password"], "xxx", m, ";") == "name=Bob;password=xxx;"
  {
    assert m == "name=Bob;" + ("password" + "=") + "secret" + "" + "";
    SingleAssignment("password", "xxx", m, ";", "name=Bob;", "secret", "", "", "name=Bob;password=xxx;");
  }

  /** A leading assignment is redacted; the rest of the line is copied. */
  lemma ExampleLeadingAssignment(m: string)
    requires m == "ssn=123-45-6789;email=a@b.com;"
    ensures FilterDatum(["ssn"], "***", m, ";") == "ssn=***;email=a@b.com;"
  {
    LeadingAssignmentParts(m);
    SingleAssignment("ssn", "***", m, ";", "", "123-45-6789", ";", "email=a@b.com;", "ssn=***;email=a@b.com;");
  }

  /** The line of `ExampleLeadingAssignment`, cut into the pieces `SingleAssignment` expects. */
  lemma LeadingAssignmentParts(m: string)
    requires m == "ssn=123-45-6789;email=a@b.com;"
    ensures m == "" + ("ssn" + "=") + "123-45-6789" + ";" + "email=a@b.com;"
  {
  }

  /** The terminator is always `;`; the separator argument only shapes the replacement. */
  lemma ExampleSeparatorOnlyInReplacement(m: string)
    requires m == "a=1;b=2"
    ensures FilterDatum(["a"], "xxx", m, ",") == "a=xxx,b=2"
  {
    assert m == "" + ("a" + "=") + "1" + ";" + "b=2";
    SingleAssignment("a", "xxx", m, ",", "", "1", ";", "b=2", "a=xxx,b=2");
  }

  /** There is no left word boundary: field `name` also matches inside `username=`. */
  lemma ExampleNoLeftBoundary(m: string)
    requires m == "username=bob;"
    ensures FilterDatum(["name"], "xxx", m, ";") == "username=xxx;"
  {
    assert m == "user" + ("name" + "=") + "bob" + ";" + "";
    SingleAssignment("name", "xxx", m, ";", "user", "bob", ";", "", "username=xxx;");
  }

  /** `.` does not cross a newline that is not the last character, so that assignment is not a match. */
  lemma ExampleInnerNewline(m: string)
    requires m == "a=1\nb"
    ensures FilterDatum(["a"], "xxx", m, ";") == "a=1\nb"
  {
    assert m[0..2] == "a=";
    assert m[3] == '\n' && !AtEnd(m, 3) && PlainRun(m, 2, 3);
    assert MatchEnd("a", m, 0).None?;
    assert "a" + "=" == "a=";
    AbsentFirstChar("a=", m, 1, |m|);
    NoMatchFrom("a", "xxx", m, ";", 0);
  }

  /** `$` also matches just before a final newline, which is kept after the separator. */
  lemma ExampleFinalNewline(m: string)
    requires m == "a=1\n"
    ensures FilterDatum(["a"], "xxx", m, ";") == "a=xxx;\n"
  {
    assert m[0..2] == "a=";
    assert PlainRun(m, 2, 3) && AtEnd(m, 3);
    assert "a" + "=" == "a=";
    AbsentFirstChar("a=", m, 3, |m|);
    OneMatch("a", "xxx", m, ";", 0, 3);
    assert m[..0] == "" && m[3..] == "\n";
  }
}
