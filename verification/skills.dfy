/** `extract_skills`: the block after the first skills header found, split on
    the list delimiters, each item trimmed and length-filtered, duplicates
    removed ignoring case (first occurrence kept), at most twenty kept. */
module Skills {
  import opened Text
  import opened Regex

  const SkillHeaders: seq<string> :=
    ["Skills:", "Technical Skills:", "Core Competencies:", "Expertise:", "Technologies:", "Programming Languages:"]

  /** The class `[,;|\n•·]`. */
  const Delims: set<char> := {',', ';', '|', '\n', '\U{2022}', '\U{00B7}'}

  predicate NotDelim(c: char) { c !in Delims }

  /** `re.search(re.escape(h) + r'\s*([^\n]+(?:\n[^\n]+)*)', text, re.IGNORECASE)` per header. */
  function HeaderHits(text: string): (r: seq<Option<Hit>>)
    ensures |r| == |SkillHeaders|
    ensures forall i :: 0 <= i < |SkillHeaders| ==> r[i] == SearchHeader(text, SkillHeaders[i], Paragraph)
  {
    seq(|SkillHeaders|, i requires 0 <= i < |SkillHeaders| => SearchHeader(text, SkillHeaders[i], Paragraph))
  }

  /** The captured block of the first header, in list order, that is found at
      all: the loop breaks there whether or not the block yields any skill. */
  function SkillBlock(text: string): (r: Option<string>)
    ensures r.None? <==> forall i :: 0 <= i < |SkillHeaders| ==> SearchHeader(text, SkillHeaders[i], Paragraph).None?
  {
    var hits := HeaderHits(text);
    match FirstAccepted(hits, AnyHit)
    case None => None
    case Some(i) =>
      var hit := hits[i].value;
      assert hit.group.start < hit.group.end <= |text|;
      Some(GroupText(text, hit))
  }

  predicate SpaceOrHyphen(c: char) { c == ' ' || c == '-' }

  /** `item.strip(' -').strip()`. */
  function Clean(item: string): string {
    Strip(Trim(item, SpaceOrHyphen))
  }

  /** `if skill and len(skill) < 50 and len(skill) > 1`. */
  predicate Keep(skill: string) {
    skill != [] && |skill| < 50 && |skill| > 1
  }

  /** The cleaned items that pass the length filter, in order. */
  function Kept(items: seq<string>): (r: seq<string>)
    ensures forall k :: 0 <= k < |r| ==> Keep(r[k])
  {
    if items == [] then []
    else (if Keep(Clean(items[0])) then [Clean(items[0])] else []) + Kept(items[1..])
  }

  /** The skills before de-duplication. */
  function RawSkills(text: string): (r: seq<string>)
    ensures forall k :: 0 <= k < |r| ==> Keep(r[k])
  {
    match SkillBlock(text)
    case None => []
    case Some(block) => Kept(Split(block, Delims))
  }

  // ---------------------------------------------------------------------
  // De-duplication ignoring case.

  /** No earlier entry of `xs` equals `xs[i]` ignoring case. */
  predicate IsFirst(xs: seq<string>, i: nat)
    requires i < |xs|
  {
    forall j :: 0 <= j < i ==> Lower(xs[j]) != Lower(xs[i])
  }

  /** Reference definition: the entries that are the first of their
      lower-cased spelling, in their original order. */
  function FirstSeen(xs: seq<string>): seq<string>
    decreases |xs|
  {
    if xs == [] then []
    else
      var n := |xs| - 1;
      FirstSeen(xs[..n]) + (if IsFirst(xs, n) then [xs[n]] else [])
  }

  /** The source's loop with its `seen` set of lower-cased skills. */
  method Dedup(xs: seq<string>) returns (r: seq<string>)
    ensures r == FirstSeen(xs)
  {
    var seen: set<string> := {};
    r := [];
    var i := 0;
    while i < |xs|
      invariant 0 <= i <= |xs|
      invariant r == FirstSeen(xs[..i])
      invariant forall x :: x in seen <==> exists j :: 0 <= j < i && Lower(xs[j]) == x
    {
      var key := Lower(xs[i]);
      assert xs[..i + 1][..i] == xs[..i];
      assert IsFirst(xs[..i + 1], i) <==> key !in seen by {
        assert forall j :: 0 <= j < i ==> xs[..i + 1][j] == xs[j];
      }
      if key !in seen {
        seen := seen + {key};
        r := r + [xs[i]];
      }
      i := i + 1;
    }
    assert xs[..|xs|] == xs;
  }

  /** `unique_skills[:20]`: the first twenty, or all when there are fewer. */
  function Capped(xs: seq<string>): (r: seq<string>)
    ensures |r| <= 20
    ensures |r| == (if |xs| <= 20 then |xs| else 20) && r == xs[..|r|]
  {
    if |xs| <= 20 then xs else xs[..20]
  }

  /** `extract_skills`: at most twenty skills, each of two to forty-nine
      stripped characters with no delimiter in it, no two the same ignoring case. */
  function ExtractSkills(text: string): (r: seq<string>)
    ensures |r| <= 20
    ensures forall k :: 0 <= k < |r| ==> Skill(r[k])
    ensures forall a, b :: 0 <= a < b < |r| ==> Lower(r[a]) != Lower(r[b])
  {
    RawSkillsAreSkills(text);
    FirstSeenKeeps(RawSkills(text), Skill);
    FirstSeenDistinct(RawSkills(text));
    Capped(FirstSeen(RawSkills(text)))
  }


  // ---------------------------------------------------------------------
  // Properties of the de-duplication.

  /** `x` is an entry of `xs` that is the first of its spelling, ignoring case. */
  ghost predicate FirstOf(xs: seq<string>, x: string) {
    exists i :: 0 <= i < |xs| && xs[i] == x && IsFirst(xs, i)
  }

  /** Some entry of `r` has the spelling of `x`, ignoring case. */
  ghost predicate Represented(r: seq<string>, x: string) {
    exists k :: 0 <= k < |r| && Lower(r[k]) == Lower(x)
  }

  /** Every entry kept is an entry of the input that is the first of its
      spelling, ignoring case. */
  lemma {:induction false} FirstSeenFirsts(xs: seq<string>)
    ensures forall k :: 0 <= k < |FirstSeen(xs)| ==> FirstOf(xs, FirstSeen(xs)[k])
    decreases |xs|
  {
    if xs != [] {
      var n := |xs| - 1;
      var pre := xs[..n];
      FirstSeenFirsts(pre);
      var r := FirstSeen(xs);
      var q := FirstSeen(pre);
      assert r == q + (if IsFirst(xs, n) then [xs[n]] else []);
      forall k | 0 <= k < |r| ensures FirstOf(xs, r[k]) {
        if k < |q| {
          var i :| 0 <= i < |pre| && pre[i] == q[k] && IsFirst(pre, i);
          assert r[k] == q[k] && xs[i] == pre[i];
          assert IsFirst(xs, i) by {
            assert forall j :: 0 <= j < i ==> pre[j] == xs[j];
          }
        } else {
          assert r[k] == xs[n];
        }
      }
    }
  }

  /** No two entries kept are the same ignoring case. */
  lemma {:induction false} FirstSeenDistinct(xs: seq<string>)
    ensures forall a, b :: 0 <= a < b < |FirstSeen(xs)| ==> Lower(FirstSeen(xs)[a]) != Lower(FirstSeen(xs)[b])
    decreases |xs|
  {
    if xs != [] {
      var n := |xs| - 1;
      var pre := xs[..n];
      FirstSeenDistinct(pre);
      FirstSeenFirsts(pre);
      var r := FirstSeen(xs);
      var q := FirstSeen(pre);
      assert r == q + (if IsFirst(xs, n) then [xs[n]] else []);
      forall a, b | 0 <= a < b < |r| ensures Lower(r[a]) != Lower(r[b]) {
        assert r[a] == q[a];
        if b < |q| {
          assert r[b] == q[b];
        } else {
          assert r[b] == xs[n] && IsFirst(xs, n);
          var i :| 0 <= i < |pre| && pre[i] == q[a] && IsFirst(pre, i);
          assert xs[i] == q[a];
        }
      }
    }
  }

  /** Nothing is lost but repeats: every input entry's spelling, ignoring case, is kept. */
  lemma {:induction false} FirstSeenCovers(xs: seq<string>)
    ensures forall i :: 0 <= i < |xs| ==> Represented(FirstSeen(xs), xs[i])
    decreases |xs|
  {
    if xs != [] {
      var n := |xs| - 1;
      var pre := xs[..n];
      FirstSeenCovers(pre);
      var r := FirstSeen(xs);
      var q := FirstSeen(pre);
      assert r == q + (if IsFirst(xs, n) then [xs[n]] else []);
      assert forall k :: 0 <= k < |q| ==> r[k] == q[k];
      forall i | 0 <= i < |xs| ensures Represented(r, xs[i]) {
        if i < n {
          assert xs[i] == pre[i];
        } else if IsFirst(xs, n) {
          assert r[|q|] == xs[n];
        } else {
          var j :| 0 <= j < n && Lower(xs[j]) == Lower(xs[n]);
          assert xs[j] == pre[j];
        }
      }
    }
  }

  /** Whatever holds of every input entry holds of every entry kept. */
  lemma FirstSeenKeeps(xs: seq<string>, p: string -> bool)
    requires forall i :: 0 <= i < |xs| ==> p(xs[i])
    ensures forall k :: 0 <= k < |FirstSeen(xs)| ==> p(FirstSeen(xs)[k])
  {
    FirstSeenFirsts(xs);
    forall k | 0 <= k < |FirstSeen(xs)| ensures p(FirstSeen(xs)[k]) {
      var i :| 0 <= i < |xs| && xs[i] == FirstSeen(xs)[k] && IsFirst(xs, i);
    }
  }

  /** Entries that differ only in case are one skill: the later one is dropped. */
  lemma RepeatDropped(a: string, b: string)
    requires Lower(a) == Lower(b)
    ensures FirstSeen([a, b]) == [a]
  {
    assert [a, b][..1] == [a];
    assert [a][..0] == [];
    assert FirstSeen([a]) == [a];
    assert [a, b][0] == a && [a, b][1] == b;
    assert !IsFirst([a, b], 1);
  }

  // ---------------------------------------------------------------------
  // Properties of `extract_skills`.

  /** A skill as returned: two to forty-nine characters, already stripped,
      and free of the list delimiters. */
  predicate Skill(s: string) {
    Keep(s) && Strip(s) == s && All(s, NotDelim)
  }

  lemma CleanSkill(item: string)
    requires All(item, NotDelim) && Keep(Clean(item))
    ensures Skill(Clean(item))
  {
    var t := Trim(item, SpaceOrHyphen);
    TrimKeepsAll(item, SpaceOrHyphen, NotDelim);
    TrimKeepsAll(t, IsSpace, NotDelim);
    StripUntrimmed(Clean(item));
  }

  lemma {:induction false} KeptSkills(items: seq<string>)
    requires forall i :: 0 <= i < |items| ==> All(items[i], NotDelim)
    ensures forall k :: 0 <= k < |Kept(items)| ==> Skill(Kept(items)[k])
    decreases |items|
  {
    if items != [] {
      KeptSkills(items[1..]);
      var rest := Kept(items[1..]);
      if Keep(Clean(items[0])) {
        CleanSkill(items[0]);
        var r := Kept(items);
        assert r == [Clean(items[0])] + rest;
        assert forall k :: 1 <= k < |r| ==> r[k] == rest[k - 1];
      } else {
        assert Kept(items) == rest;
      }
    }
  }

  /** Filtering distributes over concatenation, so the kept items keep their order. */
  lemma {:induction false} KeptAppend(a: seq<string>, b: seq<string>)
    ensures Kept(a + b) == Kept(a) + Kept(b)
    decreases |a|
  {
    if a == [] {
      assert a + b == b;
    } else {
      assert (a + b)[0] == a[0] && (a + b)[1..] == a[1..] + b;
      KeptAppend(a[1..], b);
    }
  }

  /** Every item whose cleaned form passes the filter is kept. */
  lemma {:induction false} KeptComplete(items: seq<string>)
    ensures forall i :: 0 <= i < |items| && Keep(Clean(items[i])) ==> Clean(items[i]) in Kept(items)
    decreases |items|
  {
    if items != [] {
      KeptComplete(items[1..]);
      assert forall i :: 1 <= i < |items| ==> items[i] == items[1..][i - 1];
    }
  }

  lemma RawSkillsAreSkills(text: string)
    ensures forall k :: 0 <= k < |RawSkills(text)| ==> Skill(RawSkills(text)[k])
  {
    if SkillBlock(text).Some? {
      var block := SkillBlock(text).value;
      SplitPieces(block, Delims, NotDelim);
      KeptSkills(Split(block, Delims));
    }
  }

  /** When the block yields at most twenty distinct skills, every skill in it
      is represented in the result, ignoring case. */
  lemma SkillsCover(text: string)
    requires |FirstSeen(RawSkills(text))| <= 20
    ensures forall i :: 0 <= i < |RawSkills(text)| ==> Represented(ExtractSkills(text), RawSkills(text)[i])
  {
    var raw := RawSkills(text);
    FirstSeenCovers(raw);
    assert ExtractSkills(text) == FirstSeen(raw);
  }

  /** Without any of the skills headers there are no skills. */
  lemma NoSkillHeader(text: string)
    requires forall i :: 0 <= i < |SkillHeaders| ==> SearchHeader(text, SkillHeaders[i], Paragraph).None?
    ensures ExtractSkills(text) == []
  {
  }

  /** The first header in list order that is found supplies the block; later
      headers are not looked at. */
  lemma FirstHeaderDecides(text: string, i: nat)
    requires i < |SkillHeaders| && SearchHeader(text, SkillHeaders[i], Paragraph).Some?
    requires forall j :: 0 <= j < i ==> SearchHeader(text, SkillHeaders[j], Paragraph).None?
    ensures SkillBlock(text) == Some(GroupText(text, SearchHeader(text, SkillHeaders[i], Paragraph).value))
  {
    var hits := HeaderHits(text);
    var f := FirstAccepted(hits, AnyHit);
    assert Accepts(hits[i], AnyHit);
    assert f.Some? && !(f.value < i) && !(f.value > i);
  }

  /** "Skills: " followed by a single clean item gives exactly that skill. */
  lemma SingleSkill(v: string)
    requires 1 < |v| < 50 && All(v, NotDelim)
    requires !IsSpace(v[0]) && !IsSpace(v[|v| - 1]) && v[0] != '-' && v[|v| - 1] != '-'
    ensures ExtractSkills(SkillHeaders[0] + " " + v) == [v]
  {
    var text := SkillHeaders[0] + " " + v;
    SingleBlock(v);
    SingleItem(v);
    assert RawSkills(text) == [v];
    FirstSeenOne(v);
  }

  lemma FirstSeenOne(v: string)
    ensures FirstSeen([v]) == [v]
  {
    assert [v][..0] == [];
  }

  lemma SingleBlock(v: string)
    requires v != [] && All(v, NotDelim) && !IsSpace(v[0])
    ensures SkillBlock(SkillHeaders[0] + " " + v) == Some(v)
  {
    var h := SkillHeaders[0];
    var text := h + " " + v;
    NoNewline(v);
    var hit := Hit(0, Span(|h| + 1, |text|));
    LineAfterHeader(h, v, Paragraph);
    assert SearchHeader(text, h, Paragraph) == Some(hit);
    ValueAfterHeader(h, v);
    assert GroupText(text, hit) == v;
    FirstHeaderDecides(text, 0);
    assert SkillBlock(text) == Some(GroupText(text, hit));
  }

  lemma NoNewline(v: string)
    requires All(v, NotDelim)
    ensures forall k :: 0 <= k < |v| ==> v[k] != '\n'
  {
    forall k | 0 <= k < |v| ensures v[k] != '\n' {
      assert NotDelim(v[k]);
    }
  }

  lemma SingleItem(v: string)
    requires 1 < |v| < 50 && All(v, NotDelim)
    requires !IsSpace(v[0]) && !IsSpace(v[|v| - 1]) && v[0] != '-' && v[|v| - 1] != '-'
    ensures Kept(Split(v, Delims)) == [v]
  {
    SplitWhole(v, Delims);
    TrimUntouched(v, SpaceOrHyphen);
    StripUntrimmed(v);
    assert Clean(v) == v;
    assert [v][1..] == [];
  }

  /** Every skills header starts with a letter: text without letters has no skills. */
  lemma NoLettersNoSkills(text: string)
    requires All(text, NotLetter)
    ensures ExtractSkills(text) == []
  {
    forall i | 0 <= i < |SkillHeaders| ensures SearchHeader(text, SkillHeaders[i], Paragraph).None? {
      assert IsUpper(SkillHeaders[i][0]);
      NoLetterAbsent(text, SkillHeaders[i], Paragraph);
    }
    NoSkillHeader(text);
  }
}
