/** `extract_email`: the first match of
    `\b[A-Za-z0-9._%+-]+@[A-Za-z0-9.-]+\.[A-Z|a-z]{2,}\b`, lower-cased.

    The pattern itself is abstract; what the model keeps of it is the shape of
    every match: a local part, `@`, a domain, a dot and a top-level part of at
    least two characters. */
module Email {
  import opened Text
  import opened Regex

  /** `[A-Za-z0-9._%+-]`. */
  predicate LocalChar(c: char) {
    IsLetter(c) || IsDigit(c) || c == '.' || c == '_' || c == '%' || c == '+' || c == '-'
  }

  /** `[A-Za-z0-9.-]`. */
  predicate DomainChar(c: char) {
    IsLetter(c) || IsDigit(c) || c == '.' || c == '-'
  }

  /** `[A-Z|a-z]`: inside a class the `|` is a literal character. */
  predicate TopChar(c: char) {
    IsLetter(c) || c == '|'
  }

  /** `m` is `local@domain.top` with the `@` at `at` and the last dot at `dot`. */
  predicate PartsAt(m: string, at: nat, dot: nat) {
    && 0 < at && at + 1 < dot && dot + 3 <= |m|
    && m[at] == '@' && m[dot] == '.'
    && (forall j :: 0 <= j < at ==> LocalChar(m[j]))
    && (forall j :: at < j < dot ==> DomainChar(m[j]))
    && (forall j :: dot < j < |m| ==> TopChar(m[j]))
  }

  ghost predicate EmailShape(m: string) {
    exists at: nat, dot: nat :: PartsAt(m, at, dot)
  }

  /** The first match of the email pattern. */
  type EmailMatcher = f: string -> Option<Span>
    | forall s :: Fits(s, f(s)) && (f(s).Some? ==> EmailShape(Slice(s, f(s).value)))
    witness (s: string) => None

  /** `matches[0].lower()` when there is a match. */
  function ExtractEmail(m: EmailMatcher, text: string): (r: Option<string>)
    ensures r.Some? <==> m(text).Some?
    ensures r.Some? ==> NoUpper(r.value) && EmailShape(r.value) && 6 <= |r.value|
    ensures r.Some? ==> exists sp :: Fits(text, Some(sp)) && r.value == Lower(Slice(text, sp))
  {
    match m(text)
    case None => None
    case Some(sp) =>
      var found := Slice(text, sp);
      LowerIsLowerCase(found);
      LowerKeepsShape(found);
      Some(Lower(found))
  }

  /** Lower-casing keeps each character in its class, so a match keeps its shape. */
  lemma LowerKeepsShape(m: string)
    requires EmailShape(m)
    ensures EmailShape(Lower(m)) && 6 <= |m|
  {
    var at: nat, dot: nat :| PartsAt(m, at, dot);
    var l := Lower(m);
    forall j | 0 <= j < |m| ensures ClassOf(l[j]) == ClassOf(m[j]) {
      ClassKept(m[j]);
    }
    assert PartsAt(l, at, dot) by {
      assert ClassOf(l[at]) == ClassOf(m[at]) && ClassOf(l[dot]) == ClassOf(m[dot]);
    }
  }

  /** Which parts of the pattern a character can appear in, `@` and `.` by themselves. */
  function ClassOf(c: char): (bool, bool, bool, bool, bool) {
    (LocalChar(c), DomainChar(c), TopChar(c), c == '@', c == '.')
  }

  lemma ClassKept(c: char)
    ensures ClassOf(LowerChar(c)) == ClassOf(c)
  {
  }

  /** Every email has a local-part character right before an `@`: text with
      no such pair has no email, whatever else it contains. */
  lemma NoAtNoEmail(m: EmailMatcher, text: string)
    requires forall k :: 0 < k < |text| && text[k] == '@' ==> !LocalChar(text[k - 1])
    ensures ExtractEmail(m, text).None?
  {
    MatchHasAt(m, text);
  }

  lemma MatchHasAt(m: EmailMatcher, text: string)
    ensures m(text).Some? ==> exists k :: 0 < k < |text| && text[k] == '@' && LocalChar(text[k - 1])
  {
    if m(text).Some? {
      var sp := m(text).value;
      var found := Slice(text, sp);
      var at: nat, dot: nat :| PartsAt(found, at, dot);
      assert found[at] == text[sp.start + at] && found[at - 1] == text[sp.start + at - 1];
    }
  }

  /** The address returned is already lower case: lower-casing it again changes nothing. */
  lemma EmailLowered(m: EmailMatcher, text: string)
    requires ExtractEmail(m, text).Some?
    ensures Lower(ExtractEmail(m, text).value) == ExtractEmail(m, text).value
  {
    var found := Slice(text, m(text).value);
    LowerIsLowerCase(found);
  }

  /** The classes admit an address without a letter or digit in it: the top-level
      class `[A-Z|a-z]` takes `|`, and the other parts take punctuation. */
  lemma PunctuationAddress()
    ensures EmailShape("_@-.||")
  {
    assert PartsAt("_@-.||", 1, 3);
  }
}
