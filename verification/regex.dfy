/** The regular-expression layer of the contact extractor.

    Patterns too irregular to write out (email, the phone formats, the general
    address formats, the city-before-state search) are abstract `Matcher`
    values: functions from the text to the span of their first match, if any.
    Every one of those source patterns needs at least one character, so a
    matcher's span is non-empty and lies inside the text.

    The labelled-header patterns `re.escape(header) + r'\s*(BODY)'`, searched
    with `re.IGNORECASE`, are simple enough to write out here, including how
    the greedy `\s*` gives characters back when BODY cannot start after it. */
module Regex {
  import opened Text

  datatype Span = Span(start: nat, end: nat)

  /** A match result is absent, or a non-empty span inside `s`. */
  predicate Fits(s: string, m: Option<Span>) {
    m.Some? ==> m.value.start < m.value.end <= |s|
  }

  /** The first match of a pattern that cannot match the empty string. */
  type Matcher = f: string -> Option<Span> | forall s :: Fits(s, f(s)) witness (s: string) => None

  function Slice(s: string, sp: Span): string
    requires sp.start <= sp.end <= |s|
  {
    s[sp.start..sp.end]
  }

  /** The text a matcher matched, if it matched. */
  function Matched(m: Matcher, s: string): (r: Option<string>)
    ensures r.Some? ==> r.value != [] && exists sp :: Fits(s, Some(sp)) && r.value == Slice(s, sp)
    ensures r.None? <==> m(s).None?
  {
    match m(s)
    case None => None
    case Some(sp) => assert Fits(s, Some(sp)); Some(Slice(s, sp))
  }

  predicate Accepts<T>(c: Option<T>, ok: T -> bool) {
    c.Some? && ok(c.value)
  }

  /** The ordered cascade "first pattern whose match passes validation wins":
      the index of the first candidate that is present and accepted. */
  function FirstAccepted<T>(cands: seq<Option<T>>, ok: T -> bool): (r: Option<nat>)
    ensures r.Some? ==> r.value < |cands| && Accepts(cands[r.value], ok)
    ensures r.Some? ==> forall i :: 0 <= i < r.value ==> !Accepts(cands[i], ok)
    ensures r.None? <==> forall i :: 0 <= i < |cands| ==> !Accepts(cands[i], ok)
  {
    if cands == [] then None
    else if Accepts(cands[0], ok) then Some(0)
    else match FirstAccepted(cands[1..], ok)
      case None => None
      case Some(j) => Some(j + 1)
  }

  /** The value chosen by the cascade. */
  function Cascade<T>(cands: seq<Option<T>>, ok: T -> bool): (r: Option<T>)
    ensures r.Some? <==> exists i :: 0 <= i < |cands| && Accepts(cands[i], ok)
    ensures r.Some? ==> ok(r.value) && exists i :: 0 <= i < |cands| && cands[i] == r
                                                && forall j :: 0 <= j < i ==> !Accepts(cands[j], ok)
  {
    match FirstAccepted(cands, ok)
    case None => None
    case Some(i) => cands[i]
  }

  /** The capture group that follows `\s*` after a header. */
  datatype Body =
    | Line       // [^\n]+
    | Letters    // [A-Za-z\s]+
    | Paragraph  // [^\n]+(?:\n[^\n]+)*

  predicate BodyStarts(b: Body, c: char) {
    match b
    case Letters => IsLetter(c) || IsSpace(c)
    case _ => c != '\n'
  }

  predicate NotNewline(c: char) { c != '\n' }
  predicate LetterOrSpace(c: char) { IsLetter(c) || IsSpace(c) }

  /** Greedy end of `[^\n]+(?:\n[^\n]+)*` from `q`: the block stops at the
      first empty line, or at a final newline, or at the end of the text. */
  function ParagraphEnd(s: string, q: nat): (e: nat)
    requires q < |s| && s[q] != '\n'
    ensures q < e <= |s|
    ensures e == |s| || (s[e] == '\n' && (e + 1 == |s| || s[e + 1] == '\n'))
    ensures forall k :: q <= k < e && s[k] == '\n' ==> k + 1 < e && s[k + 1] != '\n'
    decreases |s| - q
  {
    var e := RunEnd(s, q, NotNewline);
    if e + 1 < |s| && s[e + 1] != '\n' then ParagraphEnd(s, e + 1) else e
  }

  /** Greedy end of the body capture starting at `q`. */
  function BodyEnd(s: string, b: Body, q: nat): (e: nat)
    requires q < |s| && BodyStarts(b, s[q])
    ensures q < e <= |s|
  {
    match b
    case Line => RunEnd(s, q, NotNewline)
    case Letters => RunEnd(s, q, LetterOrSpace)
    case Paragraph => ParagraphEnd(s, q)
  }

  /** Largest `k` in `p..k0-1` where the body can start. */
  function LastStart(s: string, b: Body, p: nat, k0: nat): (r: Option<nat>)
    requires p <= k0 <= |s|
    ensures r.Some? ==> p <= r.value < k0 && BodyStarts(b, s[r.value])
    ensures r.Some? ==> forall k :: r.value < k < k0 ==> !BodyStarts(b, s[k])
    ensures r.None? <==> forall k :: p <= k < k0 ==> !BodyStarts(b, s[k])
    decreases k0 - p
  {
    if k0 == p then None
    else if BodyStarts(b, s[k0 - 1]) then Some(k0 - 1)
    else LastStart(s, b, p, k0 - 1)
  }

  /** Where the capture group starts after `\s*` at `p`: the greedy `\s*` takes
      the whole whitespace run; if the body cannot start right after it, the
      run is given back one character at a time until it can. */
  function GroupStart(s: string, b: Body, p: nat): (r: Option<nat>)
    requires p <= |s|
    ensures r.Some? ==> p <= r.value < |s| && BodyStarts(b, s[r.value])
    ensures r.Some? ==> forall k :: p <= k < r.value ==> IsSpace(s[k])
    ensures r.None? <==> forall k :: !CanStartAt(s, b, p, k)
    ensures r.Some? ==> forall k: nat :: CanStartAt(s, b, p, k) ==> k <= r.value
  {
    var w := RunEnd(s, p, IsSpace);
    if w < |s| && BodyStarts(b, s[w]) then
      assert CanStartAt(s, b, p, w);
      Some(w)
    else
      var r := LastStart(s, b, p, w);
      assert r.Some? ==> CanStartAt(s, b, p, r.value);
      assert r.None? ==> forall k :: !CanStartAt(s, b, p, k) by {
        if r.None? {
          forall k: nat | CanStartAt(s, b, p, k) ensures false {
          }
        }
      }
      r
  }

  /** After the header ends at `p`, `\s*` can stop at `k` and the body start there. */
  ghost predicate CanStartAt(s: string, b: Body, p: nat, k: nat) {
    && p <= k < |s|
    && (forall m :: p <= m < k ==> IsSpace(s[m]))
    && BodyStarts(b, s[k])
  }

  datatype Hit = Hit(at: nat, group: Span)

  /** The header pattern matched at position `i`, if it does. */
  function HeaderAt(s: string, header: string, b: Body, i: nat): (r: Option<Hit>)
    ensures r.Some? ==> r.value.at == i && LiteralAt(s, i, header)
    ensures r.Some? ==> i + |header| <= r.value.group.start < r.value.group.end <= |s|
    ensures !LiteralAt(s, i, header) ==> r.None?
  {
    if !LiteralAt(s, i, header) then None
    else match GroupStart(s, b, i + |header|)
      case None => None
      case Some(q) => Some(Hit(i, Span(q, BodyEnd(s, b, q))))
  }

  /** `re.search(re.escape(header) + r'\s*(BODY)', s, re.IGNORECASE)`: the
      leftmost position where the whole pattern matches. */
  function SearchHeader(s: string, header: string, b: Body): (r: Option<Hit>)
    ensures r.Some? ==> HeaderAt(s, header, b, r.value.at) == r
    ensures r.Some? ==> forall j :: 0 <= j < r.value.at ==> HeaderAt(s, header, b, j).None?
    ensures r.None? <==> forall j :: 0 <= j <= |s| ==> HeaderAt(s, header, b, j).None?
  {
    var hits := seq(|s| + 1, j requires 0 <= j <= |s| => HeaderAt(s, header, b, j));
    match FirstAccepted(hits, AnyHit)
    case None =>
      assert forall j :: 0 <= j <= |s| ==> !Accepts(hits[j], AnyHit) && hits[j] == HeaderAt(s, header, b, j);
      None
    case Some(i) =>
      assert forall j :: 0 <= j < i ==> !Accepts(hits[j], AnyHit) && hits[j] == HeaderAt(s, header, b, j);
      hits[i]
  }

  predicate AnyHit(h: Hit) { true }

  /** The captured text of a header hit. */
  function GroupText(s: string, h: Hit): string
    requires h.group.start <= h.group.end <= |s|
  {
    Slice(s, h.group)
  }

  /** A header the text does not contain, case-insensitively, is never found. */
  lemma AbsentHeader(s: string, header: string, b: Body)
    requires forall i :: 0 <= i <= |s| ==> !LiteralAt(s, i, header)
    ensures SearchHeader(s, header, b).None?
  {
  }

  /** The search finds the leftmost position where the header pattern matches. */
  lemma SearchHeaderFinds(s: string, header: string, b: Body, i: nat)
    requires i <= |s| && HeaderAt(s, header, b, i).Some?
    requires forall j :: 0 <= j < i ==> HeaderAt(s, header, b, j).None?
    ensures SearchHeader(s, header, b) == HeaderAt(s, header, b, i)
  {
    SearchHeaderSome(s, header, b, i);
    SearchHeaderNotBefore(s, header, b, i);
    SearchHeaderNotAfter(s, header, b, i);
    SearchHeaderAtHit(s, header, b);
    var at := SearchHeader(s, header, b).value.at;
    assert at == i;
  }

  lemma SearchHeaderAtHit(s: string, header: string, b: Body)
    requires SearchHeader(s, header, b).Some?
    ensures HeaderAt(s, header, b, SearchHeader(s, header, b).value.at) == SearchHeader(s, header, b)
  {
  }

  lemma SearchHeaderSome(s: string, header: string, b: Body, i: nat)
    requires i <= |s| && HeaderAt(s, header, b, i).Some?
    ensures SearchHeader(s, header, b).Some?
  {
  }

  lemma SearchHeaderNotBefore(s: string, header: string, b: Body, i: nat)
    requires SearchHeader(s, header, b).Some?
    requires forall j :: 0 <= j < i ==> HeaderAt(s, header, b, j).None?
    ensures SearchHeader(s, header, b).value.at >= i
  {
  }

  lemma SearchHeaderNotAfter(s: string, header: string, b: Body, i: nat)
    requires SearchHeader(s, header, b).Some? && HeaderAt(s, header, b, i).Some?
    ensures SearchHeader(s, header, b).value.at <= i
  {
  }

  /** A candidate accepted at the head of the cascade is its value. */
  lemma CascadeHead<T>(cands: seq<Option<T>>, ok: T -> bool)
    requires cands != [] && Accepts(cands[0], ok)
    ensures Cascade(cands, ok) == cands[0]
  {
    assert FirstAccepted(cands, ok) == Some(0);
  }

  /** "header value" with one space between them: a `[^\n]+` or paragraph body
      captures the whole one-line value. */
  lemma LineAfterHeader(header: string, v: string, b: Body)
    requires b != Letters
    requires v != [] && !IsSpace(v[0]) && forall k :: 0 <= k < |v| ==> v[k] != '\n'
    ensures var s := header + " " + v;
            SearchHeader(s, header, b) == Some(Hit(0, Span(|header| + 1, |s|)))
  {
    var s := header + " " + v;
    var q := |header| + 1;
    assert s[..|header|] == header && s[|header|] == ' ' && s[q..] == v;
    assert LiteralAt(s, 0, header) by {
      forall k | 0 <= k < |header| ensures SameLetter(s[k], header[k]) {
        assert s[k] == s[..|header|][k];
      }
    }
    assert s[q] == v[0];
    RunEndAt(s, |header|, q, IsSpace);
    assert forall k :: q <= k < |s| ==> s[k] == v[k - q];
    RunEndAt(s, q, |s|, NotNewline);
    assert BodyEnd(s, b, q) == |s|;
    assert HeaderAt(s, header, b, 0) == Some(Hit(0, Span(q, |s|)));
    SearchHeaderFinds(s, header, b, 0);
  }

  /** The group found by `LineAfterHeader` is the value. */
  lemma ValueAfterHeader(header: string, v: string)
    ensures var s := header + " " + v;
            GroupText(s, Hit(0, Span(|header| + 1, |s|))) == v
  {
    var s := header + " " + v;
    assert s[|header| + 1..] == v;
  }

  /** A header that starts with a letter is never found in text without letters. */
  lemma NoLetterAbsent(s: string, header: string, b: Body)
    requires header != [] && IsLetter(header[0]) && All(s, NotLetter)
    ensures SearchHeader(s, header, b).None?
  {
    forall j | 0 <= j <= |s| ensures !LiteralAt(s, j, header) {
      if j < |s| {
        assert !SameLetter(s[j], header[0]);
      }
    }
    AbsentHeader(s, header, b);
  }

  /** A pattern that needs a character matches nothing in the empty text. */
  lemma EmptyUnmatched(m: Matcher)
    ensures m([]).None?
  {
    assert Fits([], m([]));
  }
}
