/**
 * The text handling of POST /subscribe in server.js: the submitted address is
 * trimmed and lower-cased (line 174), and the result must match the pattern
 * `^[^\s@]+@[^\s@]+\.[^\s@]+$` (lines 179-180).
 */
module EmailFormat {

  /** The characters that JavaScript's `String.prototype.trim` removes and that
      the regular-expression class `\s` matches: tab, line feed, vertical tab,
      form feed, carriage return, space, no-break space, the Unicode space
      separators, the line and paragraph separators and the byte-order mark. */
  predicate IsSpace(c: char) {
    c == '\t' || c == '\n' || c == '\U{000B}' || c == '\U{000C}' || c == '\r' || c == ' '
    || c == '\U{00A0}' || c == '\U{1680}' || ('\U{2000}' <= c <= '\U{200A}')
    || c == '\U{2028}' || c == '\U{2029}' || c == '\U{202F}' || c == '\U{205F}'
    || c == '\U{3000}' || c == '\U{FEFF}'
  }

  predicate AllSpace(s: string) {
    forall i | 0 <= i < |s| :: IsSpace(s[i])
  }

  predicate NoSpace(s: string) {
    forall i | 0 <= i < |s| :: !IsSpace(s[i])
  }

  /** Neither begins nor ends with white space: what `trim` leaves behind. */
  predicate Trimmed(s: string) {
    s == [] || (!IsSpace(s[0]) && !IsSpace(s[|s| - 1]))
  }

  /** Drops the leading white space; what is dropped is all white space and
      what remains is a suffix that does not start with white space. */
  function TrimStart(s: string): (r: string)
    ensures |r| <= |s| && r == s[|s| - |r|..]
    ensures AllSpace(s[..|s| - |r|])
    ensures r == [] || !IsSpace(r[0])
  {
    if s != [] && IsSpace(s[0]) then TrimStart(s[1..]) else s
  }

  /** Drops the trailing white space; what is dropped is all white space and
      what remains is a prefix that does not end with white space. */
  function TrimEnd(s: string): (r: string)
    ensures |r| <= |s| && r == s[..|r|]
    ensures AllSpace(s[|r|..])
    ensures r == [] || !IsSpace(r[|r| - 1])
  {
    if s != [] && IsSpace(s[|s| - 1]) then TrimEnd(s[..|s| - 1]) else s
  }

  /** JavaScript's `trim()`. */
  function Trim(s: string): (r: string)
    ensures Trimmed(r)
  {
    TrimEnd(TrimStart(s))
  }

  /** `trim` cuts off exactly the white space around the text: whatever white
      space `p` and `q` surround a trimmed `m` with, trimming gives back `m`. */
  lemma {:induction false} TrimOfPadded(p: string, m: string, q: string)
    requires AllSpace(p) && AllSpace(q) && Trimmed(m)
    ensures Trim(p + m + q) == m
  {
    if m == [] {
      assert p + m + q == p + q + [];
      TrimStartOfPadded(p + q, []);
    } else {
      assert p + m + q == p + (m + q);
      TrimStartOfPadded(p, m + q);
      TrimEndOfPadded(m, q);
    }
  }

  lemma {:induction false} TrimStartOfPadded(p: string, t: string)
    requires AllSpace(p) && (t == [] || !IsSpace(t[0]))
    ensures TrimStart(p + t) == t
  {
    if p != [] {
      assert (p + t)[1..] == p[1..] + t;
      TrimStartOfPadded(p[1..], t);
    }
  }

  lemma {:induction false} TrimEndOfPadded(t: string, q: string)
    requires AllSpace(q) && (t == [] || !IsSpace(t[|t| - 1]))
    ensures TrimEnd(t + q) == t
  {
    if q != [] {
      assert (t + q)[..|t + q| - 1] == t + q[..|q| - 1];
      TrimEndOfPadded(t, q[..|q| - 1]);
    } else {
      assert t + q == t;
    }
  }

  /** A trimmed string is left as it is. */
  lemma TrimOfTrimmed(m: string)
    requires Trimmed(m)
    ensures Trim(m) == m
  {
    assert [] + m + [] == m;
    TrimOfPadded([], m, []);
  }

  /** Trimming twice trims nothing more. */
  lemma TrimIdempotent(s: string)
    ensures Trim(Trim(s)) == Trim(s)
  {
    TrimOfTrimmed(Trim(s));
  }

  /** `toLowerCase` on one character, for the ASCII letters. */
  function LowerChar(c: char): (r: char)
    ensures 'A' <= c <= 'Z' ==> r == "abcdefghijklmnopqrstuvwxyz"[c as int - 'A' as int]
    ensures !('A' <= c <= 'Z') ==> r == c
    ensures !('A' <= r <= 'Z')
  {
    if 'A' <= c <= 'Z' then (c as int + 32) as char else c
  }

  predicate IsUpper(c: char) {
    'A' <= c <= 'Z'
  }

  /** JavaScript's `toLowerCase()`, restricted to the ASCII letters. */
  function ToLower(s: string): (r: string)
    ensures |r| == |s|
    ensures forall i | 0 <= i < |s| :: r[i] == LowerChar(s[i])
  {
    if s == [] then [] else [LowerChar(s[0])] + ToLower(s[1..])
  }

  /** Lower-casing turns no character into white space or out of it, and
      leaves no ASCII capital behind. */
  lemma LowerCharFacts(c: char)
    ensures IsSpace(LowerChar(c)) == IsSpace(c)
    ensures !IsUpper(LowerChar(c))
    ensures LowerChar(LowerChar(c)) == LowerChar(c)
    ensures LowerChar(c) == '@' <==> c == '@'
    ensures LowerChar(c) == '.' <==> c == '.'
  {
  }

  /** What normalisation produces: trimmed, and no ASCII capital left. */
  predicate IsNormalized(s: string) {
    Trimmed(s) && forall i | 0 <= i < |s| :: !IsUpper(s[i])
  }

  /** The normalisation of line 174: `trim()` then `toLowerCase()`. */
  function Normalize(s: string): (r: string)
    ensures |r| <= |s|
    ensures IsNormalized(r)
  {
    var t := Trim(s);
    LowerKeepsShape(t);
    ToLower(t)
  }

  /** Lower-casing a trimmed string leaves it trimmed and free of capitals. */
  lemma LowerKeepsShape(t: string)
    requires Trimmed(t)
    ensures Trimmed(ToLower(t))
    ensures forall i | 0 <= i < |t| :: !IsUpper(ToLower(t)[i])
  {
    if t != [] {
      LowerCharFacts(t[0]);
      LowerCharFacts(t[|t| - 1]);
    }
    forall i | 0 <= i < |t| ensures !IsUpper(ToLower(t)[i]) {
      LowerCharFacts(t[i]);
    }
  }

  /** The normalised strings are exactly those normalisation leaves alone. */
  lemma NormalizedIsFixedPoint(s: string)
    ensures IsNormalized(s) <==> Normalize(s) == s
  {
    if IsNormalized(s) {
      TrimOfNormalized(s);
      LowerOfNormalized(s);
    }
  }

  lemma TrimOfNormalized(s: string)
    requires IsNormalized(s)
    ensures Trim(s) == s
  {
    TrimOfTrimmed(s);
  }

  lemma LowerOfNormalized(s: string)
    requires IsNormalized(s)
    ensures ToLower(s) == s
  {
    forall i | 0 <= i < |s| ensures s[i] == LowerChar(s[i]) {
      assert !IsUpper(s[i]);
    }
    ToLowerPointwise(s, s);
  }

  /** Normalising an already normalised address changes nothing, so the
      address stored by subscribe is a fixed point of the normalisation. */
  lemma NormalizeIdempotent(s: string)
    ensures Normalize(Normalize(s)) == Normalize(s)
  {
    NormalizedIsFixedPoint(Normalize(s));
  }

  /** One run of `[^\s@]+`: non-empty, without white space and without '@'. */
  predicate IsAtom(s: string) {
    |s| > 0 && forall i | 0 <= i < |s| :: !IsSpace(s[i]) && s[i] != '@'
  }

  /** `/^[^\s@]+@[^\s@]+\.[^\s@]+$/.test(s)` read as a language: `s` is a run,
      an '@', a run, a '.', and a run. */
  predicate MatchesEmailRegex(s: string) {
    exists at, dot | 0 <= at < dot < |s| ::
      s[at] == '@' && s[dot] == '.'
      && IsAtom(s[..at]) && IsAtom(s[at + 1..dot]) && IsAtom(s[dot + 1..])
  }

  /** The same rule in words: no white space anywhere, exactly one '@', a
      non-empty local part before it, and a domain after it holding a '.'
      with text on both sides. */
  predicate WellFormedEmail(s: string) {
    NoSpace(s)
    && exists at | 0 < at < |s| ::
         s[at] == '@'
         && (forall j | 0 <= j < |s| && s[j] == '@' :: j == at)
         && exists dot | at + 1 < dot < |s| - 1 :: s[dot] == '.'
  }

  /** The pattern accepts exactly the well-formed addresses. */
  lemma RegexMeansWellFormed(s: string)
    ensures MatchesEmailRegex(s) <==> WellFormedEmail(s)
  {
    if MatchesEmailRegex(s) {
      RegexImpliesWellFormed(s);
    }
    if WellFormedEmail(s) {
      WellFormedImpliesRegex(s);
    }
  }

  lemma RegexImpliesWellFormed(s: string)
    requires MatchesEmailRegex(s)
    ensures WellFormedEmail(s)
  {
    var at, dot :| 0 <= at < dot < |s| && s[at] == '@' && s[dot] == '.'
      && IsAtom(s[..at]) && IsAtom(s[at + 1..dot]) && IsAtom(s[dot + 1..]);
    forall j | 0 <= j < |s| ensures !IsSpace(s[j]) && (s[j] == '@' ==> j == at) {
      if j < at {
        assert s[..at][j] == s[j];
      } else if at < j < dot {
        assert s[at + 1..dot][j - at - 1] == s[j];
      } else if dot < j {
        assert s[dot + 1..][j - dot - 1] == s[j];
      }
    }
    assert at + 1 < dot < |s| - 1;
  }

  lemma WellFormedImpliesRegex(s: string)
    requires WellFormedEmail(s)
    ensures MatchesEmailRegex(s)
  {
    var at :| 0 < at < |s| && s[at] == '@'
      && (forall j | 0 <= j < |s| && s[j] == '@' :: j == at)
      && exists dot | at + 1 < dot < |s| - 1 :: s[dot] == '.';
    var dot :| at + 1 < dot < |s| - 1 && s[dot] == '.';
    assert IsAtom(s[..at]);
    assert IsAtom(s[at + 1..dot]);
    assert IsAtom(s[dot + 1..]);
  }

  /** A string without '@', one whose domain has no '.', and the empty string
      are refused; a plain address is accepted. */
  lemma RegexExamples()
    ensures !MatchesEmailRegex("notanemail")
    ensures !MatchesEmailRegex("a@b")
    ensures !MatchesEmailRegex("")
    ensures MatchesEmailRegex("user@example.com")
  {
    var s := "user@example.com";
    assert s[4] == '@' && s[12] == '.';
    assert s[..4] == "user" && s[5..12] == "example" && s[13..] == "com";
  }

  /** Normalisation introduces neither an '@' nor a '.': every character of
      the result is the lower-cased form of a character of the input. */
  lemma NormalizeAddsNoMarks(s: string, i: int)
    requires 0 <= i < |Normalize(s)|
    ensures Normalize(s)[i] == '@' ==> '@' in s
    ensures Normalize(s)[i] == '.' ==> '.' in s
  {
    var u := TrimStart(s);
    var t := TrimEnd(u);
    assert Normalize(s) == ToLower(t);
    LowerCharFacts(t[i]);
    assert t[i] == u[i] == s[|s| - |u| + i];
  }

  /** An input without '@', or without '.', never normalises to a well-formed
      address. */
  lemma NormalizeOfUnmarked(s: string)
    requires '@' !in s || '.' !in s
    ensures !WellFormedEmail(Normalize(s))
  {
    var n := Normalize(s);
    if WellFormedEmail(n) {
      var a :| 0 <= a < |n| && n[a] == '@';
      var d :| 0 <= d < |n| && n[d] == '.';
      NormalizeAddsNoMarks(s, a);
      NormalizeAddsNoMarks(s, d);
    }
  }

  /** `ToLower` is determined by what it does to each character. */
  lemma ToLowerPointwise(s: string, r: string)
    requires |r| == |s| && forall i | 0 <= i < |s| :: r[i] == LowerChar(s[i])
    ensures ToLower(s) == r
  {
  }

  /** Normalisation drops the white space around the text and lower-cases
      what is left. */
  lemma NormalizeOfPadded(p: string, m: string, q: string)
    requires AllSpace(p) && AllSpace(q) && Trimmed(m)
    ensures Normalize(p + m + q) == ToLower(m)
  {
    TrimOfPadded(p, m, q);
  }

  lemma ExampleTrim(s: string, m: string)
    requires s == "  User@Example.com " && m == "User@Example.com"
    ensures Normalize(s) == ToLower(m)
  {
    assert s == "  " + m + " ";
    NormalizeOfPadded("  ", m, " ");
  }

  lemma ExampleLower(m: string, n: string)
    requires m == "User@Example.com" && n == "user@example.com"
    ensures ToLower(m) == n
  {
    ToLowerPointwise(m, n);
  }

  lemma NormalizeExampleOf(s: string)
    requires s == "  User@Example.com "
    ensures Normalize(s) == "user@example.com"
  {
    ExampleTrim(s, "User@Example.com");
    ExampleLower("User@Example.com", "user@example.com");
  }

  /** Line 174 turns "  User@Example.com " into "user@example.com". */
  lemma NormalizeExample()
    ensures Normalize("  User@Example.com ") == "user@example.com"
  {
    NormalizeExampleOf("  User@Example.com ");
  }
}
