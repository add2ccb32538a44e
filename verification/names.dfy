/** `extract_name`: a structural pass over the first ten lines, then a
    labelled-header fallback over the whole text.

    The three line patterns are written out. Their character classes
    (`[A-Z]`, `[a-z]`, `\s`, `.`) are pairwise disjoint, so Python's
    backtracking never finds a match other than the greedy one, and each
    pattern reduces to the deterministic scan below. */
module Names {
  import opened Text
  import opened Regex

  /** The pre-filter class `[\d@#$%^&*()_+=\[\]{}|\\:";\'<>?,/]`, as the four
      ASCII ranges it covers. */
  predicate Forbidden(c: char) {
    ('"' <= c <= ',') || ('/' <= c <= '@') || ('[' <= c <= '_') || ('{' <= c <= '}')
  }

  /** The ranges are exactly the class: digits and the listed punctuation. */
  lemma ForbiddenIsClass(c: char)
    ensures Forbidden(c) <==> IsDigit(c) || c in "@#$%^&*()_+=[]{}|\\:\";'<>?,/"
  {
  }

  /** A stripped line the structural pass is willing to look at. */
  predicate Candidate(l: string) {
    3 <= |l| <= 50 && forall k :: 0 <= k < |l| ==> !Forbidden(l[k])
  }

  /** `[A-Z][a-z]+` at `p`, greedy: the end of the word. */
  function CapWordEnd(l: string, p: nat): (r: Option<nat>)
    ensures r.Some? ==> p + 2 <= r.value <= |l| && IsUpper(l[p])
    ensures r.Some? ==> forall k :: p < k < r.value ==> IsLower(l[k])
    ensures r.Some? ==> r.value == |l| || !IsLower(l[r.value])
    ensures r.None? <==> !(p + 1 < |l| && IsUpper(l[p]) && IsLower(l[p + 1]))
  {
    if p + 1 < |l| && IsUpper(l[p]) && IsLower(l[p + 1]) then Some(RunEnd(l, p + 1, IsLower)) else None
  }

  /** One more `\s+[A-Z][a-z]+` after `e`: the end of that word, if there is one. */
  function NextCapWord(l: string, e: nat): (r: Option<nat>)
    requires e <= |l|
    ensures r.Some? ==> e < r.value <= |l|
  {
    var w := RunEnd(l, e, IsSpace);
    if w > e && CapWordEnd(l, w).Some? then CapWordEnd(l, w) else None
  }

  /** Up to `k` more repetitions of `\s+[A-Z][a-z]+` after `e`, greedy:
      where it ends and how many repetitions it took. */
  datatype Reach = Reach(end: nat, count: nat)

  function MoreCapWords(l: string, e: nat, k: nat): (r: Reach)
    requires e <= |l|
    ensures e <= r.end <= |l| && r.count <= k
    decreases k
  {
    if k == 0 then Reach(e, 0)
    else match NextCapWord(l, e)
      case None => Reach(e, 0)
      case Some(e1) =>
        var next := MoreCapWords(l, e1, k - 1);
        Reach(next.end, next.count + 1)
  }

  /** `[A-Z][a-z]+(?:\s+[A-Z][a-z]+){1,3}` at `p`, greedy: the end of the match. */
  function CapRun(l: string, p: nat): (r: Option<nat>)
    ensures r.Some? ==> p < r.value <= |l|
  {
    match CapWordEnd(l, p)
    case None => None
    case Some(e) =>
      var more := MoreCapWords(l, e, 3);
      if more.count >= 1 then Some(more.end) else None
  }

  lemma {:induction false} MoreCapWordsShape(l: string, e: nat, k: nat)
    requires e <= |l|
    ensures var m := MoreCapWords(l, e, k);
            m.count > 0 ==> e + 3 <= m.end && IsLower(l[m.end - 1])
    decreases k
  {
    if k > 0 {
      match NextCapWord(l, e)
      case None =>
      case Some(e1) =>
        var w := RunEnd(l, e, IsSpace);
        assert CapWordEnd(l, w) == Some(e1);
        MoreCapWordsShape(l, e1, k - 1);
    }
  }

  /** The greedy run starts with a capital, ends with a lower-case letter and spans two words at least. */
  lemma CapRunShape(l: string, p: nat)
    requires CapRun(l, p).Some?
    ensures p + 5 <= CapRun(l, p).value && IsUpper(l[p]) && IsLower(l[CapRun(l, p).value - 1])
  {
    MoreCapWordsShape(l, CapWordEnd(l, p).value, 3);
  }

  /** Pattern 1, `^([A-Z][a-z]+(?:\s+[A-Z][a-z]+){1,3})$`: the greedy run
      must reach the end of the line; fewer repetitions end earlier. */
  function PlainName(l: string): (r: Option<string>)
    ensures r.Some? ==> r.value == l
    ensures r.Some? ==> NameShape(l)
  {
    if CapRun(l, 0) == Some(|l|) then CapRunShape(l, 0); Some(l) else None
  }

  /** Pattern 2, `^([A-Z][a-z]+\s+[A-Z]\.\s+[A-Z][a-z]+)$`. */
  function InitialName(l: string): (r: Option<string>)
    ensures r.Some? ==> r.value == l
    ensures r.Some? ==> NameShape(l) && 8 <= |l|
  {
    match CapWordEnd(l, 0)
    case None => None
    case Some(e1) =>
      var w1 := RunEnd(l, e1, IsSpace);
      if w1 > e1 && w1 + 1 < |l| && IsUpper(l[w1]) && l[w1 + 1] == '.' then
        var w2 := RunEnd(l, w1 + 2, IsSpace);
        if w2 > w1 + 2 && CapWordEnd(l, w2) == Some(|l|) then Some(l) else None
      else None
  }

  const Titles: seq<string> := ["Mr.", "Ms.", "Mrs.", "Dr.", "Prof."]

  /** What every name pattern's group looks like at its ends: an upper-case
      first letter, a lower-case last letter, room for two words. */
  predicate NameShape(n: string) {
    5 <= |n| && IsUpper(n[0]) && IsLower(n[|n| - 1])
  }

  /** The name part after an optional title at `p`: `\s*` then the greedy run. */
  function NameAfter(l: string, p: nat): Option<string>
    requires p <= |l|
  {
    var w := RunEnd(l, p, IsSpace);
    match CapRun(l, w)
    case None => None
    case Some(e) => Some(l[w..e])
  }

  /** Pattern 3, `^(?:Mr\.|Ms\.|Mrs\.|Dr\.|Prof\.)?\s*([A-Z][a-z]+(?:\s+[A-Z][a-z]+){1,3})`:
      each title alternative in order, then no title at all. */
  function TitledName(l: string, titles: seq<string>): Option<string>
  {
    if titles == [] then NameAfter(l, 0)
    else if StartsWith(l, titles[0]) && NameAfter(l, |titles[0]|).Some? then NameAfter(l, |titles[0]|)
    else TitledName(l, titles[1..])
  }

  lemma SliceShape(l: string, a: nat, b: nat)
    requires a + 5 <= b <= |l| && IsUpper(l[a]) && IsLower(l[b - 1])
    ensures NameShape(l[a..b])
  {
    assert l[a..b][b - a - 1] == l[b - 1];
  }

  lemma NameAfterShape(l: string, p: nat)
    requires p <= |l| && NameAfter(l, p).Some?
    ensures NameShape(NameAfter(l, p).value)
  {
    var w := RunEnd(l, p, IsSpace);
    var e := CapRun(l, w).value;
    CapRunShape(l, w);
    assert NameAfter(l, p) == Some(l[w..e]);
    SliceShape(l, w, e);
  }

  /** Pattern 3's group is the greedy run after the first title the line
      starts with and that leaves a run behind it, or after no title. */
  lemma {:induction false} TitledNameFound(l: string, titles: seq<string>)
    ensures var r := TitledName(l, titles);
            r.Some? ==> NameShape(r.value)
                        && (r == NameAfter(l, 0)
                            || exists i :: 0 <= i < |titles| && StartsWith(l, titles[i]) && r == NameAfter(l, |titles[i]|))
    decreases |titles|
  {
    var r := TitledName(l, titles);
    if titles == [] {
      if r.Some? { NameAfterShape(l, 0); }
    } else if StartsWith(l, titles[0]) && NameAfter(l, |titles[0]|).Some? {
      NameAfterShape(l, |titles[0]|);
    } else {
      TitledNameFound(l, titles[1..]);
      if r.Some? && r != NameAfter(l, 0) {
        var i :| 0 <= i < |titles[1..]| && StartsWith(l, titles[1..][i]) && r == NameAfter(l, |titles[1..][i]|);
        assert titles[1..][i] == titles[i + 1];
      }
    }
  }

  /** Pattern 1 takes two capitalised words joined by a space. */
  lemma PlainTwoWords(first: string, last: string)
    requires CapWord(first) && CapWord(last)
    ensures PlainName(first + " " + last) == Some(first + " " + last)
  {
    var l := first + " " + last;
    var p := |first|;
    assert l[0..p] == first && l[p] == ' ' && l[p + 1..] == last;
    TwoWordRun(l, 0, p);
  }

  /** Pattern 2 takes a capitalised word, a capital initial with its period, and a capitalised word. */
  lemma InitialLine(first: string, c: char, last: string)
    requires CapWord(first) && IsUpper(c) && CapWord(last)
    ensures InitialName(first + " " + [c] + ". " + last) == Some(first + " " + [c] + ". " + last)
  {
    var l := first + " " + [c] + ". " + last;
    var p := |first|;
    assert l[0..p] == first && l[p] == ' ' && l[p + 1] == c && l[p + 2] == '.' && l[p + 3] == ' ';
    assert l[p + 4..|l|] == last;
    CapWordEndAt(l, 0, p);
    SingleSpace(l, p);
    SingleSpace(l, p + 3);
    CapWordEndAt(l, p + 4, |l|);
  }

  /** The three patterns' groups for a line, in priority order. */
  function LinePatterns(l: string): (r: seq<Option<string>>)
    ensures |r| == 3
  {
    [PlainName(l), InitialName(l), TitledName(l, Titles)]
  }

  /** The source's extra validation: the name splits into 2 to 4 words. */
  predicate WordCountOk(name: string) {
    2 <= |Words(name)| <= 4
  }

  /** Pattern `j` gives a group that passes validation, and no earlier pattern does. */
  ghost predicate PatternWins(l: string, j: nat)
    requires j < 3
  {
    && LinePatterns(l)[j].Some? && WordCountOk(LinePatterns(l)[j].value)
    && forall k :: 0 <= k < j ==> LinePatterns(l)[k].None? || !WordCountOk(LinePatterns(l)[k].value)
  }

  /** The first pattern whose group passes validation, on a line that passed the pre-filter. */
  function PatternName(l: string): (r: Option<string>)
    ensures r.Some? ==> WordCountOk(r.value)
    ensures r.None? <==> forall j :: 0 <= j < 3 ==> LinePatterns(l)[j].None? || !WordCountOk(LinePatterns(l)[j].value)
    ensures r.Some? ==> exists j :: 0 <= j < 3 && PatternWins(l, j) && r.value == Strip(LinePatterns(l)[j].value)
  {
    var pats := LinePatterns(l);
    match FirstAccepted(pats, WordCountOk)
    case None => None
    case Some(j) =>
      WordsStrip(pats[j].value);
      Some(Strip(pats[j].value))
  }

  /** One iteration of the structural loop: strip the line, apply the
      pre-filter, then try the patterns. */
  function NameFromLine(line: string): (r: Option<string>)
    ensures r.Some? ==> Candidate(Strip(line)) && WordCountOk(r.value)
  {
    var l := Strip(line);
    if Candidate(l) then PatternName(l) else None
  }

  /** The index of the first of the lines that yields a name. */
  function FirstNamedLine(lines: seq<string>): (r: Option<nat>)
    ensures r.Some? ==> r.value < |lines| && NameFromLine(lines[r.value]).Some?
    ensures r.Some? ==> forall j :: 0 <= j < r.value ==> NameFromLine(lines[j]).None?
    ensures r.None? <==> forall j :: 0 <= j < |lines| ==> NameFromLine(lines[j]).None?
  {
    var names := seq(|lines|, i requires 0 <= i < |lines| => NameFromLine(lines[i]));
    var r := FirstAccepted(names, AnyName);
    assert forall j :: 0 <= j < |lines| ==> names[j] == NameFromLine(lines[j]);
    r
  }

  predicate AnyName(n: string) { true }

  /** `text.split('\n')[:10]`. */
  function TopLines(text: string): (r: seq<string>)
    ensures 1 <= |r| <= 10
    ensures |r| == (if |Split(text, {'\n'})| <= 10 then |Split(text, {'\n'})| else 10)
    ensures forall i :: 0 <= i < |r| ==> r[i] == Split(text, {'\n'})[i]
  {
    var lines := Split(text, {'\n'});
    if |lines| <= 10 then lines else lines[..10]
  }

  const NameHeaders: seq<string> := ["Name:", "Full Name:", "Candidate Name:", "Applicant:"]

  /** `re.search(re.escape(h) + r'\s*([A-Za-z\s]+)', text, re.IGNORECASE)`, group stripped. */
  function HeaderName(text: string, h: string): Option<string> {
    match SearchHeader(text, h, Letters)
    case None => None
    case Some(hit) => Some(Strip(GroupText(text, hit)))
  }

  /** The header fallback: the headers in list order, each searched once. */
  function HeaderNames(text: string): (r: seq<Option<string>>)
    ensures |r| == |NameHeaders|
    ensures forall i :: 0 <= i < |NameHeaders| ==> r[i] == HeaderName(text, NameHeaders[i])
  {
    seq(|NameHeaders|, i requires 0 <= i < |NameHeaders| => HeaderName(text, NameHeaders[i]))
  }

  /** Line `i` is the first of `lines` that yields a name. */
  ghost predicate FirstNamed(lines: seq<string>, i: nat) {
    && i < |lines|
    && NameFromLine(lines[i]).Some?
    && forall j :: 0 <= j < i ==> NameFromLine(lines[j]).None?
  }

  lemma FirstNamedUnique(lines: seq<string>, i: nat, i': nat)
    requires FirstNamed(lines, i) && FirstNamed(lines, i')
    ensures i == i'
  {
  }

  /** `extract_name`: the first of the top ten lines that yields a name wins;
      only when none does are the headers consulted. */
  function ExtractName(text: string): (r: Option<string>)
    ensures r.Some? ==> WordCountOk(r.value)
    ensures forall i: nat :: FirstNamed(TopLines(text), i) ==> r == NameFromLine(TopLines(text)[i])
    ensures (forall i :: 0 <= i < |TopLines(text)| ==> NameFromLine(TopLines(text)[i]).None?)
            ==> r == Cascade(HeaderNames(text), WordCountOk)
  {
    var lines := TopLines(text);
    match FirstNamedLine(lines)
    case Some(i) =>
      assert forall i': nat :: FirstNamed(lines, i') ==> i' == i by {
        forall i': nat | FirstNamed(lines, i') ensures i' == i {
          FirstNamedUnique(lines, i, i');
        }
      }
      NameFromLine(lines[i])
    case None => Cascade(HeaderNames(text), WordCountOk)
  }

  // ---------------------------------------------------------------------
  // A leading title is dropped.

  /** `[A-Z][a-z]+`: one capitalised word. */
  predicate CapWord(w: string) {
    2 <= |w| && IsUpper(w[0]) && forall k :: 1 <= k < |w| ==> IsLower(w[k])
  }

  /** A title: a capital, lower-case letters, then a period. */
  lemma TitleShape(i: nat)
    requires i < |Titles|
    ensures var t := Titles[i];
            && 3 <= |t| && IsUpper(t[0]) && t[|t| - 1] == '.'
            && forall k :: 1 <= k < |t| - 1 ==> IsLower(t[k])
  {
  }

  /** A line that starts with `Titles[i]` does not start with an earlier title. */
  lemma EarlierTitleFails(line: string, i: nat, j: nat)
    requires j < i < |Titles| && StartsWith(line, Titles[i])
    ensures !StartsWith(line, Titles[j])
  {
    var t := Titles[i];
    // The first position where the two titles differ.
    var d := if i >= 3 then 0 else if i == 2 && j == 0 then 2 else 1;
    assert line[..|t|][d] == t[d] != Titles[j][d];
  }

  lemma TitledNameHit(l: string, titles: seq<string>)
    requires titles != [] && StartsWith(l, titles[0]) && NameAfter(l, |titles[0]|).Some?
    ensures TitledName(l, titles) == NameAfter(l, |titles[0]|)
  {
  }

  lemma TitledNameSkip(l: string, titles: seq<string>)
    requires titles != [] && !StartsWith(l, titles[0])
    ensures TitledName(l, titles) == TitledName(l, titles[1..])
  {
  }

  /** Trying the titles from the `k`-th on, the alternation settles on `Titles[i]`. */
  lemma {:induction false} TitledNameFrom(l: string, k: nat, i: nat)
    requires k <= i < |Titles| && StartsWith(l, Titles[i]) && NameAfter(l, |Titles[i]|).Some?
    ensures TitledName(l, Titles[k..]) == NameAfter(l, |Titles[i]|)
    decreases i - k
  {
    if k == i {
      TitledNameHit(l, Titles[k..]);
    } else {
      EarlierTitleFails(l, i, k);
      TitledNameSkip(l, Titles[k..]);
      assert Titles[k..][1..] == Titles[k + 1..];
      TitledNameFrom(l, k + 1, i);
    }
  }

  /** The line "title first last", for capitalised words `first` and `last`. */
  function TitledLine(i: nat, first: string, last: string): string
    requires i < |Titles|
  {
    Titles[i] + " " + first + " " + last
  }

  /** Where the parts of a titled line sit. */
  lemma TitledLineParts(i: nat, first: string, last: string)
    requires i < |Titles|
    ensures var line := TitledLine(i, first, last); var t := Titles[i]; var p := |t| + 1 + |first|;
            && |line| == p + 1 + |last|
            && line[..|t|] == t && line[|t|] == ' '
            && line[|t| + 1..p] == first && line[p] == ' ' && line[p + 1..] == last
            && line[|t| + 1..] == first + " " + last
  {
    var t := Titles[i];
    var p := |t| + 1 + |first|;
    var line := TitledLine(i, first, last);
    assert line == t + (" " + (first + (" " + last)));
    assert line[|t| + 1..] == first + (" " + last) == first + " " + last;
    assert line[|t| + 1..p] == line[|t| + 1..][..|first|];
  }

  /** `[A-Z][a-z]+` at `p` ends at `q` when `l[p..q]` is a capitalised word not followed by a lower-case letter. */
  lemma CapWordEndAt(l: string, p: nat, q: nat)
    requires p <= q <= |l| && CapWord(l[p..q]) && (q == |l| || !IsLower(l[q]))
    ensures CapWordEnd(l, p) == Some(q)
  {
    assert l[p..q][0] == l[p] && l[p..q][1] == l[p + 1];
    forall k | p + 1 <= k < q ensures IsLower(l[k]) {
      assert l[p..q][k - p] == l[k];
    }
    RunEndAt(l, p + 1, q, IsLower);
  }

  /** `\s+[A-Z][a-z]+` after `e`, for a single space then a word ending at `q`. */
  lemma NextCapWordAt(l: string, e: nat, q: nat)
    requires e + 1 < |l| && IsSpace(l[e]) && !IsSpace(l[e + 1]) && CapWordEnd(l, e + 1) == Some(q)
    ensures NextCapWord(l, e) == Some(q)
  {
    RunEndAt(l, e, e + 1, IsSpace);
  }

  /** Two words that run to the end of the line form the whole greedy run. */
  lemma CapRunTwoWords(l: string, p: nat, m: nat)
    requires p <= |l| && CapWordEnd(l, p) == Some(m) && NextCapWord(l, m) == Some(|l|)
    ensures CapRun(l, p) == Some(|l|)
  {
    assert NextCapWord(l, |l|).None?;
    assert MoreCapWords(l, |l|, 2) == Reach(|l|, 0);
    assert MoreCapWords(l, m, 3) == Reach(|l|, 1);
  }

  lemma CapWordNotSpace(w: string)
    requires CapWord(w)
    ensures forall k :: 0 <= k < |w| ==> !IsSpace(w[k]) && IsLetter(w[k])
  {
  }

  /** Two capitalised words separated by one space, running to the end of the line. */
  lemma TwoWordRun(l: string, a: nat, p: nat)
    requires a < p < |l| && CapWord(l[a..p]) && l[p] == ' ' && CapWord(l[p + 1..])
    ensures CapRun(l, a) == Some(|l|)
  {
    assert l[p + 1..|l|] == l[p + 1..];
    assert l[p + 1] == l[p + 1..][0];
    CapWordEndAt(l, a, p);
    CapWordEndAt(l, p + 1, |l|);
    NextCapWordAt(l, p, |l|);
    CapRunTwoWords(l, a, p);
  }

  /** `\s*` after `s` takes the single space there, and the run takes the rest of the line. */
  lemma NameAfterSpace(l: string, s: nat)
    requires s + 1 < |l| && l[s] == ' ' && !IsSpace(l[s + 1]) && CapRun(l, s + 1) == Some(|l|)
    ensures NameAfter(l, s) == Some(l[s + 1..])
  {
    SingleSpace(l, s);
    assert l[s + 1..|l|] == l[s + 1..];
  }

  /** `\s*` at a lone space takes just that space. */
  lemma SingleSpace(l: string, s: nat)
    requires s + 1 < |l| && IsSpace(l[s]) && !IsSpace(l[s + 1])
    ensures RunEnd(l, s, IsSpace) == s + 1
  {
    assert RunEnd(l, s + 1, IsSpace) == s + 1;
  }

  /** The two words after the title form the greedy run of capitalised words. */
  lemma TitledLineRun(i: nat, first: string, last: string)
    requires i < |Titles| && CapWord(first) && CapWord(last)
    ensures CapRun(TitledLine(i, first, last), |Titles[i]| + 1) == Some(|TitledLine(i, first, last)|)
  {
    TitledLineParts(i, first, last);
    TwoWordRun(TitledLine(i, first, last), |Titles[i]| + 1, |Titles[i]| + 1 + |first|);
  }

  /** Pattern 3 skips the title and the space, and captures both words. */
  lemma TitledLineGroup(i: nat, first: string, last: string)
    requires i < |Titles| && CapWord(first) && CapWord(last)
    ensures NameAfter(TitledLine(i, first, last), |Titles[i]|) == Some(first + " " + last)
  {
    var line := TitledLine(i, first, last);
    var t := Titles[i];
    TitledLineParts(i, first, last);
    TitledLineRun(i, first, last);
    assert line[|t| + 1] == line[|t| + 1..][0] == first[0];
    NameAfterSpace(line, |t|);
  }

  /** Patterns 1 and 2 stop at the title's period. */
  lemma TitledLineNotPlain(i: nat, first: string, last: string)
    requires i < |Titles|
    ensures PlainName(TitledLine(i, first, last)).None?
    ensures InitialName(TitledLine(i, first, last)).None?
  {
    var line := TitledLine(i, first, last);
    var t := Titles[i];
    TitleShape(i);
    TitledLineParts(i, first, last);
    assert line[..|t|][|t| - 1] == '.';
    assert forall k :: 0 <= k < |t| ==> line[..|t|][k] == line[k];
    CapWordEndAt(line, 0, |t| - 1);
    RunEndAt(line, |t| - 1, |t| - 1, IsSpace);
    assert NextCapWord(line, |t| - 1).None?;
  }

  /** Two capitalised words separated by a space pass the 2-4 word check. */
  lemma TwoWords(first: string, last: string)
    requires CapWord(first) && CapWord(last)
    ensures Words(first + " " + last) == [first, last]
  {
    CapWordNotSpace(first);
    CapWordNotSpace(last);
    assert first + " " + last == first + (" " + last);
    WordsFirst(first, " " + last);
    WordsSkipSpace(" ", last);
    assert last + [] == last;
    WordsFirst(last, []);
  }

  /** Letters, periods and spaces: what a titled line is made of. */
  predicate PlainChars(s: string) {
    forall k :: 0 <= k < |s| ==> IsLetter(s[k]) || s[k] == '.' || s[k] == ' '
  }

  lemma PlainCharsAppend(a: string, b: string)
    requires PlainChars(a) && PlainChars(b)
    ensures PlainChars(a + b)
  {
    forall k | 0 <= k < |a + b| ensures IsLetter((a + b)[k]) || (a + b)[k] == '.' || (a + b)[k] == ' ' {
      if k >= |a| { assert (a + b)[k] == b[k - |a|]; }
    }
  }

  lemma PlainAllowed(c: char)
    requires IsLetter(c) || c == '.' || c == ' '
    ensures !Forbidden(c)
  {
  }

  lemma TitledLinePlain(i: nat, first: string, last: string)
    requires i < |Titles| && CapWord(first) && CapWord(last)
    ensures PlainChars(TitledLine(i, first, last))
  {
    TitleShape(i);
    CapWordNotSpace(first);
    CapWordNotSpace(last);
    PlainCharsAppend(Titles[i], " ");
    PlainCharsAppend(Titles[i] + " ", first);
    PlainCharsAppend(Titles[i] + " " + first, " ");
    PlainCharsAppend(Titles[i] + " " + first + " ", last);
  }

  /** The structural pass turns "title first last" into "first last". */
  lemma TitledLineName(i: nat, first: string, last: string)
    requires i < |Titles| && CapWord(first) && CapWord(last)
    requires |Titles[i]| + 2 + |first| + |last| <= 50
    ensures NameFromLine(TitledLine(i, first, last)) == Some(first + " " + last)
  {
    var line := TitledLine(i, first, last);
    var n := first + " " + last;
    TitledLinePlain(i, first, last);
    TitledLineParts(i, first, last);
    TitleShape(i);
    assert line[0] == line[..|Titles[i]|][0];
    assert line[|line| - 1] == line[|Titles[i]| + 2 + |first|..][|last| - 1];
    StripUntrimmed(line);
    forall k | 0 <= k < |line| ensures !Forbidden(line[k]) {
      PlainAllowed(line[k]);
    }
    TitledLineGroup(i, first, last);
    TitledLineNotPlain(i, first, last);
    TitledNameFrom(line, 0, i);
    assert Titles[0..] == Titles;
    TwoWords(first, last);
    TwoWordsStripped(first, last);
    PatternPicksTitled(line, n);
    CandidateName(line, n);
  }

  lemma CandidateName(line: string, n: string)
    requires Strip(line) == line && Candidate(line) && PatternName(line) == Some(n)
    ensures NameFromLine(line) == Some(n)
  {
  }

  /** When only pattern 3 matches, and its group passes validation, the line's name is that group. */
  lemma PatternPicksTitled(line: string, n: string)
    requires PlainName(line).None? && InitialName(line).None? && TitledName(line, Titles) == Some(n)
    requires WordCountOk(n) && Strip(n) == n
    ensures PatternName(line) == Some(n)
  {
    var pats: seq<Option<string>> := [None, None, Some(n)];
    assert LinePatterns(line) == pats;
    assert Accepts(pats[2], WordCountOk);
    var r := FirstAccepted(pats, WordCountOk);
    assert r.Some?;
    assert r.value != 0 && r.value != 1;
  }

  lemma TwoWordsStripped(first: string, last: string)
    requires CapWord(first) && CapWord(last)
    ensures Strip(first + " " + last) == first + " " + last
  {
    var n := first + " " + last;
    assert n == (first + " ") + last;
    assert n[0] == first[0] && n[|n| - 1] == last[|last| - 1];
    StripUntrimmed(n);
  }

  lemma {:induction false} SplitFirstPiece(a: string, rest: string, delims: set<char>)
    requires forall k :: 0 <= k < |a| ==> a[k] !in delims
    requires rest == [] || rest[0] in delims
    ensures Split(a + rest, delims)[0] == a
    decreases |a|
  {
    if a == [] {
      assert a + rest == rest;
    } else {
      assert (a + rest)[1..] == a[1..] + rest;
      SplitFirstPiece(a[1..], rest, delims);
    }
  }

  /** A text whose first line is a title and a two-word name gives that name
      without the title: "Dr. Jane Smith" gives "Jane Smith". */
  lemma TitleIsDropped(i: nat, first: string, last: string, rest: string)
    requires i < |Titles| && CapWord(first) && CapWord(last)
    requires |Titles[i]| + 2 + |first| + |last| <= 50
    requires rest == [] || rest[0] == '\n'
    ensures ExtractName(TitledLine(i, first, last) + rest) == Some(first + " " + last)
  {
    TitledLineName(i, first, last);
    TitledLinePlain(i, first, last);
    PlainSingleLine(TitledLine(i, first, last));
    NamedFirstLine(TitledLine(i, first, last), rest, first + " " + last);
  }

  lemma PlainSingleLine(s: string)
    requires PlainChars(s)
    ensures forall k :: 0 <= k < |s| ==> s[k] !in {'\n'}
  {
  }

  /** A first line that yields a name decides `extract_name`, whatever follows it. */
  lemma NamedFirstLine(line: string, rest: string, n: string)
    requires forall k :: 0 <= k < |line| ==> line[k] !in {'\n'}
    requires rest == [] || rest[0] == '\n'
    requires NameFromLine(line) == Some(n)
    ensures ExtractName(line + rest) == Some(n)
  {
    SplitFirstPiece(line, rest, {'\n'});
    FirstLineName(line + rest, line);
  }

  /** A first line that yields a name decides `extract_name`. */
  lemma FirstLineName(text: string, line: string)
    requires Split(text, {'\n'})[0] == line && NameFromLine(line).Some?
    ensures ExtractName(text) == NameFromLine(line)
  {
    TopLinesFirst(text);
    assert FirstNamed(TopLines(text), 0);
  }

  lemma TopLinesFirst(text: string)
    ensures TopLines(text)[0] == Split(text, {'\n'})[0]
  {
  }

  // ---------------------------------------------------------------------
  // Text without letters has no name.

  lemma NoLetterNoWord(l: string)
    requires All(l, NotLetter)
    ensures forall p :: CapWordEnd(l, p).None? && CapRun(l, p).None?
  {
  }

  lemma {:induction false} NoLetterNoTitled(l: string, titles: seq<string>)
    requires All(l, NotLetter)
    ensures TitledName(l, titles).None?
    decreases |titles|
  {
    NoLetterNoWord(l);
    if titles != [] {
      NoLetterNoTitled(l, titles[1..]);
    }
  }

  lemma NoLetterNoLine(line: string)
    requires All(line, NotLetter)
    ensures NameFromLine(line).None?
  {
    var l := Strip(line);
    TrimKeepsAll(line, IsSpace, NotLetter);
    NoLetterNoWord(l);
    NoLetterNoTitled(l, Titles);
    assert LinePatterns(l) == [None, None, None];
  }

  /** Every name header starts with a letter, so letter-free text never contains one. */
  lemma NoLetterNoHeader(text: string)
    requires All(text, NotLetter)
    ensures forall i :: 0 <= i < |NameHeaders| ==> HeaderName(text, NameHeaders[i]).None?
  {
    forall i | 0 <= i < |NameHeaders| ensures HeaderName(text, NameHeaders[i]).None? {
      var h := NameHeaders[i];
      assert IsUpper(h[0]);
      NoLetterAbsent(text, h, Letters);
    }
  }

  /** Text with no ASCII letter yields no name: no line matches a pattern and no header is present. */
  lemma NoLettersNoName(text: string)
    requires All(text, NotLetter)
    ensures ExtractName(text).None?
  {
    var lines := TopLines(text);
    SplitPieces(text, {'\n'}, NotLetter);
    forall i | 0 <= i < |lines| ensures NameFromLine(lines[i]).None? {
      NoLetterNoLine(lines[i]);
    }
    NoLetterNoHeader(text);
  }
}
