/** `extract_linkedin`: three profile-URL patterns searched case-insensitively
    in order; a URL that does not start with "http" gets "https://" in front.

    The patterns are written out. Their optional parts (`https?://`, `www\.`)
    begin with different letters from what follows them, so Python's
    backtracking never finds a match other than the greedy one. */
module LinkedIn {
  import opened Text
  import opened Regex

  /** `[A-Za-z0-9\-_]`. */
  predicate IdChar(c: char) {
    IsLetter(c) || IsDigit(c) || c == '-' || c == '_'
  }

  const Profile := "linkedin.com/in/"

  /** `linkedin\.com/in/[A-Za-z0-9\-_]+/?` at `p`: where the match ends. */
  function ProfileAt(s: string, p: nat): (r: Option<nat>)
    ensures r.Some? ==> p + |Profile| < r.value <= |s| && LiteralAt(s, p, Profile)
  {
    var q := p + |Profile|;
    if LiteralAt(s, p, Profile) && q < |s| && IdChar(s[q]) then
      var e := RunEnd(s, q, IdChar);
      Some(if e < |s| && s[e] == '/' then e + 1 else e)
    else None
  }

  /** After an optional `https?://` at `i`, where the rest must start. */
  function AfterScheme(s: string, i: nat): nat {
    if LiteralAt(s, i, "https://") then i + 8
    else if LiteralAt(s, i, "http://") then i + 7
    else i
  }

  /** Pattern 1, `(?:https?://)?(?:www\.)?linkedin\.com/in/[A-Za-z0-9\-_]+/?`, at `i`. */
  function FullAt(s: string, i: nat): Option<nat> {
    var a := AfterScheme(s, i);
    ProfileAt(s, if LiteralAt(s, a, "www.") then a + 4 else a)
  }

  /** Pattern 3, `linkedin\s*:\s*` then pattern 1, at `i`. */
  function LabelledAt(s: string, i: nat): Option<nat> {
    if LiteralAt(s, i, "linkedin") then
      var w := RunEnd(s, i + 8, IsSpace);
      if w < |s| && s[w] == ':' then FullAt(s, RunEnd(s, w + 1, IsSpace)) else None
    else None
  }

  /** `re.search` from position `i` over positions up to `n`: the leftmost
      start where `at` finds a match, and where that match ends. */
  function Leftmost(at: nat -> Option<nat>, n: nat, i: nat): (r: Option<Span>)
    ensures r.Some? ==> i <= r.value.start <= n && at(r.value.start) == Some(r.value.end)
    ensures r.Some? ==> forall j :: i <= j < r.value.start ==> at(j).None?
    ensures r.None? ==> forall j :: i <= j <= n ==> at(j).None?
    decreases n + 1 - i
  {
    if i > n then None
    else match at(i)
      case Some(e) => Some(Span(i, e))
      case None => Leftmost(at, n, i + 1)
  }

  /** `re.search` with pattern 1. */
  function SearchFull(s: string): (r: Option<Span>)
    ensures r.Some? ==> r.value.start <= |s| && FullAt(s, r.value.start) == Some(r.value.end)
    ensures r.Some? ==> forall j :: 0 <= j < r.value.start ==> FullAt(s, j).None?
    ensures r.None? <==> forall j :: 0 <= j <= |s| ==> FullAt(s, j).None?
  {
    var at := (j: nat) => FullAt(s, j);
    assert forall j: nat :: at(j) == FullAt(s, j);
    Leftmost(at, |s|, 0)
  }

  /** `re.search` with pattern 2. */
  function SearchProfile(s: string): (r: Option<Span>)
    ensures r.Some? ==> r.value.start <= |s| && ProfileAt(s, r.value.start) == Some(r.value.end)
    ensures r.None? <==> forall j :: 0 <= j <= |s| ==> ProfileAt(s, j).None?
  {
    var at := (j: nat) => ProfileAt(s, j);
    assert forall j: nat :: at(j) == ProfileAt(s, j);
    Leftmost(at, |s|, 0)
  }

  /** `re.search` with pattern 3. */
  function SearchLabelled(s: string): (r: Option<Span>)
    ensures r.Some? ==> r.value.start <= |s| && LabelledAt(s, r.value.start) == Some(r.value.end)
    ensures r.None? <==> forall j :: 0 <= j <= |s| ==> LabelledAt(s, j).None?
  {
    var at := (j: nat) => LabelledAt(s, j);
    assert forall j: nat :: at(j) == LabelledAt(s, j);
    Leftmost(at, |s|, 0)
  }

  /** The text a search found; every pattern needs at least one id character. */
  function Found(s: string, r: Option<Span>): (t: Option<string>)
    requires r.Some? ==> r.value.start < r.value.end <= |s|
    ensures t.Some? ==> t.value != []
  {
    match r
    case None => None
    case Some(sp) => Some(s[sp.start..sp.end])
  }

  lemma FullEnds(s: string, i: nat)
    requires FullAt(s, i).Some?
    ensures i < FullAt(s, i).value <= |s|
  {
  }

  lemma LabelledEnds(s: string, i: nat)
    requires LabelledAt(s, i).Some?
    ensures i < LabelledAt(s, i).value <= |s|
  {
  }

  /** The match text of the first pattern, in order, that matches. */
  function FirstMatch(s: string): (r: Option<string>)
    ensures r.Some? ==> r.value != []
  {
    var full := SearchFull(s);
    if full.Some? then
      FullEnds(s, full.value.start);
      Found(s, full)
    else
      var profile := SearchProfile(s);
      if profile.Some? then Found(s, profile)
      else
        var labelled := SearchLabelled(s);
        if labelled.None? then None
        else LabelledEnds(s, labelled.value.start); Found(s, labelled)
  }

  /** `extract_linkedin`: a returned URL always starts with "http". */
  function ExtractLinkedIn(s: string): (r: Option<string>)
    ensures r.Some? <==> FirstMatch(s).Some?
    ensures r.Some? ==> StartsWith(r.value, "http")
  {
    match FirstMatch(s)
    case None => None
    case Some(url) => Some(if StartsWith(url, "http") then url else "https://" + url)
  }

  /** The scheme is added exactly when the match lacks it: a match starting
      with "http" is returned unchanged, any other gets "https://" in front. */
  lemma SchemeAdded(s: string)
    requires FirstMatch(s).Some?
    ensures var url := FirstMatch(s).value;
            && (StartsWith(url, "http") ==> ExtractLinkedIn(s) == Some(url))
            && (!StartsWith(url, "http") ==> ExtractLinkedIn(s) == Some("https://" + url))
  {
  }

  // ---------------------------------------------------------------------
  // Patterns 2 and 3 are never used.

  /** At a position holding an "l", neither a scheme nor "www." is present. */
  lemma NothingOptional(s: string, i: nat)
    requires i < |s| && LowerChar(s[i]) == 'l'
    ensures AfterScheme(s, i) == i && !LiteralAt(s, i, "www.")
  {
    LiteralMiss(s, i, "https://");
    LiteralMiss(s, i, "http://");
    LiteralMiss(s, i, "www.");
  }

  /** Where the bare profile matches, pattern 1 matches too, with nothing optional taken. */
  lemma ProfileIsFull(s: string, i: nat)
    requires ProfileAt(s, i).Some?
    ensures FullAt(s, i) == ProfileAt(s, i)
  {
    LiteralHead(s, i, Profile);
    NothingOptional(s, i);
  }

  lemma NoProfileAt(s: string, j: nat)
    requires SearchFull(s).None? && j <= |s|
    ensures ProfileAt(s, j).None?
  {
    if ProfileAt(s, j).Some? {
      ProfileIsFull(s, j);
    }
  }

  lemma NoLabelledAt(s: string, j: nat)
    requires SearchFull(s).None? && j <= |s|
    ensures LabelledAt(s, j).None?
  {
    if LiteralAt(s, j, "linkedin") {
      var w := RunEnd(s, j + 8, IsSpace);
      if w < |s| && s[w] == ':' {
        var q := RunEnd(s, w + 1, IsSpace);
        assert q <= |s|;
      }
    }
  }

  /** When pattern 1 finds nothing, neither do patterns 2 and 3: each of their
      matches contains a match of pattern 1. */
  lemma LaterPatternsUnreachable(s: string)
    requires SearchFull(s).None?
    ensures SearchProfile(s).None? && SearchLabelled(s).None?
  {
    forall j | 0 <= j <= |s| ensures ProfileAt(s, j).None? {
      NoProfileAt(s, j);
    }
    forall j | 0 <= j <= |s| ensures LabelledAt(s, j).None? {
      NoLabelledAt(s, j);
    }
  }

  /** So the first pattern decides: the URL comes from its leftmost match. */
  lemma FirstPatternDecides(s: string)
    ensures FirstMatch(s) == Found(s, SearchFull(s))
  {
    if SearchFull(s).None? {
      LaterPatternsUnreachable(s);
    }
  }

  // ---------------------------------------------------------------------
  // Examples.

  /** A profile path and a non-empty id running to the end of the text. */
  lemma ProfileToEnd(s: string, p: nat)
    requires p + |Profile| < |s| && s[p..p + |Profile|] == Profile
    requires forall k :: p + |Profile| <= k < |s| ==> IdChar(s[k])
    ensures ProfileAt(s, p) == Some(|s|)
  {
    LiteralPresent(s, p, Profile);
    RunEndAt(s, p + |Profile|, |s|, IdChar);
  }

  /** Pattern 1 matching the whole text makes the whole text the URL's source. */
  lemma WholeMatch(s: string)
    requires FullAt(s, 0) == Some(|s|)
    ensures FirstMatch(s) == Some(s)
  {
    assert SearchFull(s) == Some(Span(0, |s|));
    assert s[0..|s|] == s;
  }

  predicate IdText(id: string) {
    id != [] && forall k :: 0 <= k < |id| ==> IdChar(id[k])
  }

  /** The text is `pre`, then the profile path, then the id. */
  lemma ProfileParts(pre: string, id: string)
    requires IdText(id)
    ensures var s := pre + Profile + id;
            && |pre| + |Profile| < |s| && s[|pre|..|pre| + |Profile|] == Profile && s[|pre|] == 'l'
            && s[..|pre|] == pre
            && forall k :: |pre| + |Profile| <= k < |s| ==> IdChar(s[k])
  {
    var s := pre + Profile + id;
    assert forall k :: |pre| + |Profile| <= k < |s| ==> s[k] == id[k - |pre| - |Profile|];
    assert s[|pre|..|pre| + |Profile|] == Profile;
  }

  lemma BareWhole(id: string)
    requires IdText(id)
    ensures FirstMatch(Profile + id) == Some(Profile + id)
  {
    var s := Profile + id;
    ProfileParts([], id);
    assert [] + Profile + id == s;
    ProfileToEnd(s, 0);
    NothingOptional(s, 0);
    WholeMatch(s);
  }

  /** "linkedin.com/in/johndoe" gives "https://linkedin.com/in/johndoe". */
  lemma BareProfile(id: string)
    requires IdText(id)
    ensures ExtractLinkedIn(Profile + id) == Some("https://" + Profile + id)
  {
    var s := Profile + id;
    BareWhole(id);
    assert !StartsWith(s, "http") by { assert s[0] != "http"[0]; }
    Prefixed(s);
    assert "https://" + Profile + id == "https://" + s;
  }

  lemma Prefixed(s: string)
    requires FirstMatch(s) == Some(s) && !StartsWith(s, "http")
    ensures ExtractLinkedIn(s) == Some("https://" + s)
  {
  }

  lemma SchemeFound(s: string, scheme: string)
    requires scheme == "https://" || scheme == "HTTPS://"
    requires |scheme| <= |s| && s[..|scheme|] == scheme
    ensures AfterScheme(s, 0) == 8
  {
    forall k | 0 <= k < 8 ensures SameLetter(s[k], "https://"[k]) {
      assert s[k] == scheme[k];
      assert k == 0 || k == 1 || k == 2 || k == 3 || k == 4 || k == 5 || k == 6 || k == 7;
    }
  }

  /** A scheme, then the profile and id: pattern 1 takes it all. */
  lemma SchemedWhole(scheme: string, id: string)
    requires scheme == "https://" || scheme == "HTTPS://"
    requires IdText(id)
    ensures FirstMatch(scheme + Profile + id) == Some(scheme + Profile + id)
  {
    var s := scheme + Profile + id;
    ProfileParts(scheme, id);
    ProfileToEnd(s, 8);
    SchemeFound(s, scheme);
    NothingOptional(s, 8);
    WholeMatch(s);
  }

  /** "https://www.linkedin.com/in/jane-smith" without the "www." is returned as it is. */
  lemma SecureProfile(id: string)
    requires IdText(id)
    ensures ExtractLinkedIn("https://" + Profile + id) == Some("https://" + Profile + id)
  {
    var s := "https://" + Profile + id;
    SchemedWhole("https://", id);
    assert s[..4] == "http";
  }

  /** The match is case-insensitive but the "http" test is not:
      "HTTPS://linkedin.com/in/x" gets a second scheme in front. */
  lemma UpperCaseScheme(id: string)
    requires IdText(id)
    ensures ExtractLinkedIn("HTTPS://" + Profile + id) == Some("https://" + "HTTPS://" + Profile + id)
  {
    var s := "HTTPS://" + Profile + id;
    SchemedWhole("HTTPS://", id);
    assert s[0] != "http"[0];
    Prefixed(s);
    assert "https://" + "HTTPS://" + Profile + id == "https://" + s;
  }

  /** Every pattern needs the letters of "linkedin": text without letters has no profile. */
  lemma NoLettersNoLinkedIn(s: string)
    requires All(s, NotLetter)
    ensures ExtractLinkedIn(s).None?
  {
    forall j | 0 <= j <= |s| ensures FullAt(s, j).None? {
      var p := if LiteralAt(s, AfterScheme(s, j), "www.") then AfterScheme(s, j) + 4 else AfterScheme(s, j);
      if p < |s| {
        assert NotLetter(s[p]);
        LiteralMiss(s, p, Profile);
      }
    }
    LaterPatternsUnreachable(s);
  }
}
