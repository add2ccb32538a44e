/** `extract_phone`: five phone patterns tried in order; for each, only its
    first match is looked at, and it is returned verbatim when it holds at
    least ten digits and plus signs together.

    The patterns are abstract. Each needs at least one digit, and none lets
    more than one `+` into a match. */
module Phone {
  import opened Text
  import opened Regex

  /** `re.sub(r'[^\d+]', '', phone)`. */
  function Cleaned(m: string): (r: string)
    ensures |r| <= |m|
    ensures forall k :: 0 <= k < |r| ==> IsDigit(r[k]) || r[k] == '+'
  {
    if m == [] then []
    else (if IsDigit(m[0]) || m[0] == '+' then [m[0]] else []) + Cleaned(m[1..])
  }

  /** Number of characters of `m` that `p` accepts. */
  function Count(m: string, p: char -> bool): nat {
    if m == [] then 0 else (if p(m[0]) then 1 else 0) + Count(m[1..], p)
  }

  predicate IsPlus(c: char) { c == '+' }

  /** Cleaning keeps the digits and the plus signs, and nothing else. */
  lemma {:induction false} CleanedCount(m: string)
    ensures |Cleaned(m)| == Count(m, IsDigit) + Count(m, IsPlus)
  {
    if m != [] {
      CleanedCount(m[1..]);
    }
  }

  lemma {:induction false} NoneCounted(m: string, p: char -> bool)
    requires forall k :: 0 <= k < |m| ==> !p(m[k])
    ensures Count(m, p) == 0
  {
    if m != [] {
      NoneCounted(m[1..], p);
    }
  }

  /** What every phone pattern's match has: a digit, and at most one `+`. */
  predicate PhoneShape(m: string) {
    Count(m, IsDigit) >= 1 && Count(m, IsPlus) <= 1
  }

  /** The first match of one phone pattern. */
  type PhoneMatcher = f: string -> Option<Span>
    | forall s :: Fits(s, f(s)) && (f(s).Some? ==> PhoneShape(Slice(s, f(s).value)))
    witness (s: string) => None

  /** The five patterns, in the source's order. */
  datatype PhonePatterns = PhonePatterns(
    separated: PhoneMatcher,      // [\+]?[(]?[0-9]{1,3}[)]?[-\s\.]?[(]?[0-9]{1,4}[)]?[-\s\.]?[0-9]{1,4}[-\s\.]?[0-9]{1,9}
    dashed: PhoneMatcher,         // \b\d{3}[-.]?\d{3}[-.]?\d{4}\b
    bracketed: PhoneMatcher,      // \(?\d{3}\)?[-.\s]?\d{3}[-.\s]?\d{4}
    international: PhoneMatcher,  // \+\d{1,3}\s?\d{1,14}
    plain: PhoneMatcher)          // \b\d{10,14}\b

  /** `m` is a non-empty piece of `text`. */
  ghost predicate InText(text: string, m: string) {
    exists sp :: Fits(text, Some(sp)) && m == Slice(text, sp)
  }

  /** `matches[0]` of one pattern. */
  function FirstMatch(f: PhoneMatcher, text: string): (r: Option<string>)
    ensures r.Some? <==> f(text).Some?
    ensures r.Some? ==> PhoneShape(r.value) && InText(text, r.value)
  {
    match f(text)
    case None => None
    case Some(sp) => Some(Slice(text, sp))
  }

  function Candidates(p: PhonePatterns, text: string): (r: seq<Option<string>>)
    ensures |r| == 5
    ensures forall i :: 0 <= i < 5 ==> r[i].Some? ==> PhoneShape(r[i].value) && InText(text, r[i].value)
  {
    [FirstMatch(p.separated, text), FirstMatch(p.dashed, text), FirstMatch(p.bracketed, text),
     FirstMatch(p.international, text), FirstMatch(p.plain, text)]
  }

  /** `len(cleaned) >= 10`. */
  predicate LongEnough(phone: string) {
    |Cleaned(phone)| >= 10
  }

  /** `extract_phone`: the match is returned as found, separators included. */
  function ExtractPhone(p: PhonePatterns, text: string): (r: Option<string>)
    ensures r.Some? ==> LongEnough(r.value) && PhoneShape(r.value)
    ensures r.Some? ==> InText(text, r.value)
  {
    Cascade(Candidates(p, text), LongEnough)
  }

  // ---------------------------------------------------------------------
  // Properties.

  /** A phone number returned holds at least nine digits: ten cleaned
      characters, of which at most one is a plus sign. */
  lemma NineDigits(p: PhonePatterns, text: string)
    requires ExtractPhone(p, text).Some?
    ensures Count(ExtractPhone(p, text).value, IsDigit) >= 9
  {
    CleanedCount(ExtractPhone(p, text).value);
  }

  /** The pattern whose first match is long enough decides, provided no earlier
      pattern's first match was; a short first match is not retried further on. */
  lemma PhoneWins(p: PhonePatterns, text: string, i: nat)
    requires i < 5 && Accepts(Candidates(p, text)[i], LongEnough)
    requires forall j :: 0 <= j < i ==> !Accepts(Candidates(p, text)[j], LongEnough)
    ensures ExtractPhone(p, text) == Candidates(p, text)[i]
  {
    var cands := Candidates(p, text);
    var f := FirstAccepted(cands, LongEnough);
    assert f.Some? && !(f.value < i) && !(f.value > i);
  }

  /** Text without a digit has no phone number. */
  lemma NoDigitNoPhone(p: PhonePatterns, text: string)
    requires forall k :: 0 <= k < |text| ==> !IsDigit(text[k])
    ensures ExtractPhone(p, text).None?
  {
    NoDigitNoMatch(p.separated, text);
    NoDigitNoMatch(p.dashed, text);
    NoDigitNoMatch(p.bracketed, text);
    NoDigitNoMatch(p.international, text);
    NoDigitNoMatch(p.plain, text);
    assert forall i :: 0 <= i < 5 ==> Candidates(p, text)[i].None?;
  }

  lemma NoDigitNoMatch(f: PhoneMatcher, text: string)
    requires forall k :: 0 <= k < |text| ==> !IsDigit(text[k])
    ensures f(text).None?
  {
    if f(text).Some? {
      NoneCounted(Slice(text, f(text).value), IsDigit);
    }
  }
}
