/** `extract_address`: labelled headers first, then three general patterns,
    then a city-before-state search keyed on the US state codes found. */
module Addresses {
  import opened Text
  import opened Regex

  const AddressHeaders: seq<string> := ["Address:", "Location:", "City:", "Residence:", "Lives in:", "Based in:"]

  /** The source's check on a header value: present and shorter than 100 characters. */
  predicate Acceptable(v: string) {
    v != [] && |v| < 100
  }

  /** `re.search(re.escape(h) + r'\s*([^\n]+)', text, re.IGNORECASE)`, group stripped. */
  function HeaderValue(text: string, h: string): (r: Option<string>)
    ensures r.Some? ==> Strip(r.value) == r.value
  {
    match SearchHeader(text, h, Line)
    case None => None
    case Some(hit) =>
      var v := Strip(GroupText(text, hit));
      if v == [] then Some(v) else StripUntrimmed(v); Some(v)
  }

  /** The header candidates, in list order. */
  function HeaderValues(text: string): (r: seq<Option<string>>)
    ensures |r| == |AddressHeaders|
    ensures forall i :: 0 <= i < |AddressHeaders| ==> r[i] == HeaderValue(text, AddressHeaders[i])
  {
    seq(|AddressHeaders|, i requires 0 <= i < |AddressHeaders| => HeaderValue(text, AddressHeaders[i]))
  }

  /** The state codes of `\b(?:AL|AK|...|WY)\b`, in the source's order. */
  const States: seq<string> := [
    "AL", "AK", "AZ", "AR", "CA", "CO", "CT", "DE", "FL", "GA",
    "HI", "ID", "IL", "IN", "IA", "KS", "KY", "LA", "ME", "MD",
    "MA", "MI", "MN", "MS", "MO", "MT", "NE", "NV", "NH", "NJ",
    "NM", "NY", "NC", "ND", "OH", "OK", "OR", "PA", "RI", "SC",
    "SD", "TN", "TX", "UT", "VT", "VA", "WA", "WV", "WI", "WY"]

  /** Two upper-case ASCII letters. */
  predicate Code(s: string) {
    |s| == 2 && IsUpper(s[0]) && IsUpper(s[1])
  }

  /** `x in ss`, written as a walk down the list. */
  predicate Listed(ss: seq<string>, x: string) {
    ss != [] && (ss[0] == x || Listed(ss[1..], x))
  }

  /** The walk is the membership test. */
  lemma {:induction false} ListedIn(ss: seq<string>, x: string)
    ensures Listed(ss, x) <==> x in ss
  {
    if ss != [] {
      ListedIn(ss[1..], x);
      assert ss == [ss[0]] + ss[1..];
    }
  }

  /** A state code at `i` with a word boundary on both sides (case-sensitive).
      Every listed code is two capital letters; saying so first keeps the
      membership test from being needed to know that. */
  predicate StateAt(text: string, i: nat) {
    && i + 2 <= |text|
    && IsUpper(text[i]) && IsUpper(text[i + 1])
    && Listed(States, text[i..i + 2])
    && (i == 0 || !IsWordChar(text[i - 1]))
    && (i + 2 == |text| || !IsWordChar(text[i + 2]))
  }

  /** A state token is exactly a listed code with no word character on either
      side. (Every listed code is two capitals; `Code` says so here so that the
      fifty codes need not be examined one by one.) */
  lemma StateAtMeaning(text: string, i: nat)
    ensures StateAt(text, i) <==>
              && i + 2 <= |text| && Code(text[i..i + 2]) && text[i..i + 2] in States
              && (i == 0 || !IsWordChar(text[i - 1]))
              && (i + 2 == |text| || !IsWordChar(text[i + 2]))
  {
    if i + 2 <= |text| {
      var x := text[i..i + 2];
      ListedIn(States, x);
      assert x[0] == text[i] && x[1] == text[i + 1];
    }
  }

  /** `re.findall(state_pattern, text[i:])` scanning left to right; a match
      consumes its two characters. */
  function StatesFrom(text: string, i: nat): (r: seq<string>)
    ensures forall k :: 0 <= k < |r| ==> Code(r[k])
    decreases |text| - i
  {
    if i >= |text| then []
    else if StateAt(text, i) then [text[i..i + 2]] + StatesFrom(text, i + 2)
    else StatesFrom(text, i + 1)
  }

  /** The abstract search `([A-Za-z\s]+),?\s*{state}` for one state code:
      its match is non-empty, inside the text, and ends with the state code. */
  predicate CityFits(text: string, state: string, m: Option<Span>) {
    && Fits(text, m)
    && (m.Some? ==> |state| <= m.value.end - m.value.start && text[m.value.end - |state|..m.value.end] == state)
  }

  type CitySearch = f: (string, string) -> Option<Span> | forall text, state :: CityFits(text, state, f(text, state))
    witness (text: string, state: string) => None

  /** The patterns the model leaves abstract. */
  datatype Patterns = Patterns(cityStateZip: Matcher, cityState: Matcher, street: Matcher, city: CitySearch)

  /** The three general patterns, in the source's order; `findall` of a
      pattern whose only group spans the whole match gives the match. */
  function General(p: Patterns, text: string): (r: seq<Option<string>>)
    ensures |r| == 3
  {
    [Matched(p.cityStateZip, text), Matched(p.cityState, text), Matched(p.street, text)]
  }

  predicate AnyText(s: string) { true }

  /** For each state code found, in order, the city search for it; the first that matches wins. */
  function CityBeforeState(p: Patterns, text: string, states: seq<string>): (r: Option<string>)
    requires forall k :: 0 <= k < |states| ==> Code(states[k])
    ensures r.Some? ==> r.value != []
    ensures r.Some? ==> exists k :: 0 <= k < |states| && p.city(text, states[k]).Some?
  {
    if states == [] then None
    else match p.city(text, states[0])
      case Some(sp) =>
        CityMatchEnds(p, text, states[0]);
        StripKeepsLast(Slice(text, sp));
        Some(Strip(Slice(text, sp)))
      case None =>
        var r := CityBeforeState(p, text, states[1..]);
        assert r.Some? ==> exists k :: 0 <= k < |states| && p.city(text, states[k]).Some? by {
          if r.Some? {
            var k :| 0 <= k < |states[1..]| && p.city(text, states[1..][k]).Some?;
            assert states[k + 1] == states[1..][k];
          }
        }
        r
  }

  /** The first state code whose city search matches decides: the address is
      that match, stripped. */
  lemma {:induction false} CityFirstWins(p: Patterns, text: string, states: seq<string>, i: nat)
    requires forall k :: 0 <= k < |states| ==> Code(states[k])
    requires i < |states| && p.city(text, states[i]).Some?
    requires forall j :: 0 <= j < i ==> p.city(text, states[j]).None?
    ensures CityBeforeState(p, text, states) == Some(Strip(Slice(text, p.city(text, states[i]).value)))
    decreases i
  {
    if i > 0 {
      assert states[1..][i - 1] == states[i];
      assert forall j :: 0 <= j < i - 1 ==> states[1..][j] == states[j + 1];
      CityFirstWins(p, text, states[1..], i - 1);
    }
  }

  /** The state fallback finds nothing exactly when no code's city search matches. */
  lemma {:induction false} CityNone(p: Patterns, text: string, states: seq<string>)
    requires forall k :: 0 <= k < |states| ==> Code(states[k])
    ensures CityBeforeState(p, text, states).None? <==> forall k :: 0 <= k < |states| ==> p.city(text, states[k]).None?
    decreases |states|
  {
    if states != [] {
      CityNone(p, text, states[1..]);
      assert forall k :: 1 <= k < |states| ==> states[k] == states[1..][k - 1];
    }
  }

  lemma CityMatchEnds(p: Patterns, text: string, state: string)
    requires Code(state) && p.city(text, state).Some?
    ensures var sp := p.city(text, state).value;
            sp.start < sp.end <= |text| && IsUpper(text[sp.end - 1])
  {
    var sp := p.city(text, state).value;
    assert CityFits(text, state, Some(sp));
    assert text[sp.end - 2..sp.end][1] == text[sp.end - 1];
  }

  /** `extract_address`. */
  function ExtractAddress(p: Patterns, text: string): (r: Option<string>)
    ensures r.Some? ==> r.value != []
  {
    match Cascade(HeaderValues(text), Acceptable)
    case Some(v) => Some(v)
    case None =>
      match Cascade(General(p, text), AnyText)
      case Some(v) => Some(v)
      case None => CityBeforeState(p, text, StatesFrom(text, 0))
  }

  // ---------------------------------------------------------------------
  // Properties.

  /** An acceptable header value wins over the general patterns and the state
      fallback, whatever they would match; earlier headers in the list come first. */
  lemma HeaderWins(p: Patterns, text: string, i: nat)
    requires i < |AddressHeaders| && Accepts(HeaderValue(text, AddressHeaders[i]), Acceptable)
    requires forall j :: 0 <= j < i ==> !Accepts(HeaderValue(text, AddressHeaders[j]), Acceptable)
    ensures ExtractAddress(p, text) == HeaderValue(text, AddressHeaders[i])
  {
    var hs := HeaderValues(text);
    var r := FirstAccepted(hs, Acceptable);
    assert Accepts(hs[i], Acceptable);
    assert r.Some? && !(r.value < i) && !(r.value > i);
  }

  /** A value taken from a header is stripped, non-empty and shorter than 100 characters. */
  lemma HeaderValueShape(text: string)
    requires Cascade(HeaderValues(text), Acceptable).Some?
    ensures var v := Cascade(HeaderValues(text), Acceptable).value;
            Strip(v) == v && v != [] && |v| < 100
  {
  }

  /** With no acceptable header, the first general pattern that matches gives the address, verbatim. */
  lemma GeneralWins(p: Patterns, text: string)
    requires Cascade(HeaderValues(text), Acceptable).None?
    requires Cascade(General(p, text), AnyText).Some?
    ensures ExtractAddress(p, text) == Cascade(General(p, text), AnyText)
    ensures exists sp :: Fits(text, Some(sp)) && ExtractAddress(p, text).value == Slice(text, sp)
  {
    var g := General(p, text);
    var i :| 0 <= i < |g| && g[i] == Cascade(g, AnyText);
    assert g[i] == Matched(p.cityStateZip, text) || g[i] == Matched(p.cityState, text) || g[i] == Matched(p.street, text);
  }

  /** The state scan misses no code: every position holding one is reported.
      A match at `i` is never followed by one at `i + 1`, because the boundary
      before `i + 1` would need `text[i]` to be a non-word character. */
  lemma {:induction false} StatesComplete(text: string, i: nat, j: nat)
    requires i <= j && StateAt(text, j)
    ensures text[j..j + 2] in StatesFrom(text, i)
    decreases |text| - i
  {
    if i == j {
    } else if StateAt(text, i) {
      assert j != i + 1;
      StatesComplete(text, i + 2, j);
    } else {
      StatesComplete(text, i + 1, j);
    }
  }

  /** The state scan reports nothing else: every token is a code found at some position. */
  lemma {:induction false} StatesSound(text: string, i: nat, x: string)
    requires x in StatesFrom(text, i)
    ensures exists j :: i <= j < |text| && StateAt(text, j) && x == text[j..j + 2]
    decreases |text| - i
  {
    if StateAt(text, i) && x == text[i..i + 2] {
    } else if StateAt(text, i) {
      StatesSound(text, i + 2, x);
    } else {
      StatesSound(text, i + 1, x);
    }
  }

  /** Text with no state code at any position gives no state tokens. */
  lemma {:induction false} NoStates(text: string, i: nat)
    requires forall j :: i <= j < |text| ==> !StateAt(text, j)
    ensures StatesFrom(text, i) == []
    decreases |text| - i
  {
    if i < |text| {
      NoStates(text, i + 1);
    }
  }

  lemma NoHeaderValue(text: string)
    requires forall i :: 0 <= i < |AddressHeaders| ==> !Accepts(HeaderValue(text, AddressHeaders[i]), Acceptable)
    ensures Cascade(HeaderValues(text), Acceptable).None?
  {
  }

  lemma NoGeneral(p: Patterns, text: string)
    requires p.cityStateZip(text).None? && p.cityState(text).None? && p.street(text).None?
    ensures Cascade(General(p, text), AnyText).None?
  {
    assert forall k :: 0 <= k < 3 ==> General(p, text)[k].None?;
  }

  /** When no header, no general pattern and no state code matches, there is no address. */
  lemma NoAddress(p: Patterns, text: string)
    requires forall i :: 0 <= i < |AddressHeaders| ==> !Accepts(HeaderValue(text, AddressHeaders[i]), Acceptable)
    requires p.cityStateZip(text).None? && p.cityState(text).None? && p.street(text).None?
    requires forall j :: 0 <= j < |text| ==> !StateAt(text, j)
    ensures ExtractAddress(p, text).None?
  {
    NoHeaderValue(text);
    NoGeneral(p, text);
    NoStates(text, 0);
  }

  /** The first header, a space, and a one-line value with no surrounding
      spaces, shorter than 100 characters, gives that value. */
  lemma LabelledAddress(p: Patterns, v: string)
    requires v != [] && |v| < 100 && !IsSpace(v[0]) && !IsSpace(v[|v| - 1])
    requires forall k :: 0 <= k < |v| ==> v[k] != '\n'
    ensures ExtractAddress(p, AddressHeaders[0] + " " + v) == Some(v)
  {
    LabelledValue(AddressHeaders[0], v);
    CascadeHead(HeaderValues(AddressHeaders[0] + " " + v), Acceptable);
  }

  lemma LabelledValue(h: string, v: string)
    requires v != [] && !IsSpace(v[0]) && !IsSpace(v[|v| - 1])
    requires forall k :: 0 <= k < |v| ==> v[k] != '\n'
    ensures HeaderValue(h + " " + v, h) == Some(v)
  {
    var text := h + " " + v;
    LineAfterHeader(h, v, Line);
    ValueAfterHeader(h, v);
    StripUntrimmed(v);
  }

  /** In text without letters no header and no state code is found: only
      the general patterns can give an address. */
  lemma NoLettersAddress(p: Patterns, text: string)
    requires All(text, NotLetter)
    ensures ExtractAddress(p, text) == Cascade(General(p, text), AnyText)
  {
    NoLettersNoHeader(text);
    NoLettersNoState(text);
  }

  lemma NoLettersNoHeader(text: string)
    requires All(text, NotLetter)
    ensures Cascade(HeaderValues(text), Acceptable).None?
  {
    forall i | 0 <= i < |AddressHeaders| ensures HeaderValue(text, AddressHeaders[i]).None? {
      assert IsUpper(AddressHeaders[i][0]);
      NoLetterAbsent(text, AddressHeaders[i], Line);
    }
    NoHeaderValue(text);
  }

  lemma NoLettersNoState(text: string)
    requires All(text, NotLetter)
    ensures StatesFrom(text, 0) == []
  {
    NoStates(text, 0);
  }

  lemma NoGeneralEmpty(p: Patterns)
    ensures Cascade(General(p, []), AnyText).None?
  {
    EmptyUnmatched(p.cityStateZip);
    EmptyUnmatched(p.cityState);
    EmptyUnmatched(p.street);
    NoGeneral(p, []);
  }
}
