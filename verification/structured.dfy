/** How `parse_resume` chooses its contact fields: from the third-party
    parser's JSON response when any field can be found there, otherwise all
    of them from the regular-expression extractor. */
module Structured {
  import opened Text
  import opened Json
  import Locator
  import Contact
  import Names
  import Email
  import Phone
  import Addresses
  import LinkedIn
  import Skills

  const NameKeys: seq<string> := ["name", "full_name", "given_name", "first_name", "formatted_name"]
  const EmailKeys: seq<string> := ["email", "emails"]
  const PhoneKeys: seq<string> := ["phone", "phones", "mobile"]
  const AddressKeys: seq<string> := ["address", "location", "locations", "addresses"]
  const LinkedInKeys: seq<string> := ["linkedin", "linkedin_url", "linkedin_profile", "profile_url"]
  const SkillKeys: seq<string> := ["skills", "skill", "keywords", "expertise"]

  /** Python's `str(x)` for a value that is not a string, left abstract. */
  type Render = Json -> string

  /** `str(x)`: a string is itself, anything else is rendered. */
  function ToText(render: Render, j: Json): (r: string)
    ensures j.Str? ==> r == j.s
  {
    if j.Str? then j.s else render(j)
  }

  /** The class `[;,|\\n]` of the raw pattern: semicolon, comma, bar,
      backslash and the letter `n`. */
  const SkillSeparators: set<char> := {';', ',', '|', '\\', 'n'}

  /** `[s.strip() for s in pieces if s.strip()]`. */
  function StrippedPieces(pieces: seq<string>): (r: seq<string>)
    ensures forall k :: 0 <= k < |r| ==> r[k] != [] && !IsSpace(r[k][0]) && !IsSpace(r[k][|r[k]| - 1])
  {
    if pieces == [] then []
    else (if Strip(pieces[0]) != [] then [Strip(pieces[0])] else []) + StrippedPieces(pieces[1..])
  }

  /** `_normalize_skills`. */
  function NormalizeSkills(raw: Json, render: Render): (r: seq<string>)
    ensures raw.Null? ==> r == []
    ensures raw.Arr? ==> |r| == |raw.items| && forall i :: 0 <= i < |r| ==> r[i] == ToText(render, raw.items[i])
    ensures raw.Str? ==> forall k :: 0 <= k < |r| ==> r[k] != [] && Strip(r[k]) == r[k]
    ensures !raw.Null? && !raw.Arr? && !raw.Str? ==> r == [render(raw)]
  {
    match raw
    case Null => []
    case Arr(items) => seq(|items|, i requires 0 <= i < |items| => ToText(render, items[i]))
    case Str(s) =>
      var r := StrippedPieces(SplitRuns(s, SkillSeparators));
      forall k | 0 <= k < |r| ensures Strip(r[k]) == r[k] {
        StripUntrimmed(r[k]);
      }
      r
    case _ => [render(raw)]
  }

  /** The contact fields, before the response defaults them. */
  datatype Fields = Fields(
    fullName: Option<Json>,
    email: Option<Json>,
    phone: Option<Json>,
    address: Option<Json>,
    linkedin: Option<Json>,
    skills: seq<string>)

  /** The empty `contact_info` dictionary. */
  const NoFields := Fields(None, None, None, None, None, [])

  predicate Present(o: Option<Json>) {
    o.Some? && Truthy(o.value)
  }

  /** `any(contact_info.values())`. */
  predicate AnyField(f: Fields) {
    Present(f.fullName) || Present(f.email) || Present(f.phone)
    || Present(f.address) || Present(f.linkedin) || f.skills != []
  }

  /** The skills value found, or `[]` when none is. */
  function RawSkills(resp: Json): (r: Json)
    ensures r == Arr([]) || Truthy(r)
  {
    match Locator.Search(resp, SkillKeys)
    case Some(v) => v
    case None => Arr([])
  }

  /** Each field looked up in the response under its aliases. */
  function FromResponse(resp: Json, render: Render): (f: Fields)
    ensures Present(f.fullName) <==> Locator.Search(resp, NameKeys).Some?
    ensures Present(f.email) <==> Locator.Search(resp, EmailKeys).Some?
    ensures Present(f.phone) <==> Locator.Search(resp, PhoneKeys).Some?
    ensures Present(f.address) <==> Locator.Search(resp, AddressKeys).Some?
    ensures Present(f.linkedin) <==> Locator.Search(resp, LinkedInKeys).Some?
  {
    Fields(
      Locator.Search(resp, NameKeys),
      Locator.Search(resp, EmailKeys),
      Locator.Search(resp, PhoneKeys),
      Locator.Search(resp, AddressKeys),
      Locator.Search(resp, LinkedInKeys),
      NormalizeSkills(RawSkills(resp), render))
  }

  /** Only a non-empty object response is searched. */
  predicate Searchable(resp: Option<Json>) {
    resp.Some? && resp.value.Obj? && resp.value.entries != []
  }

  function Gathered(resp: Option<Json>, render: Render): (f: Fields)
    ensures !Searchable(resp) ==> f == NoFields
  {
    if Searchable(resp) then FromResponse(resp.value, render) else NoFields
  }

  function Wrap(o: Option<string>): (r: Option<Json>)
    ensures r.Some? <==> o.Some?
  {
    match o
    case None => None
    case Some(s) => Some(Str(s))
  }

  /** The regular-expression extractor's dictionary. */
  function Local(c: Contact.ContactInfo): (f: Fields)
    ensures f.skills == c.skills
  {
    Fields(Wrap(c.fullName), Wrap(c.email), Wrap(c.phone), Wrap(c.address), Wrap(c.linkedin), c.skills)
  }

  /** All fields from the response when any is there, otherwise all from the
      extractor run on the transcript: the two sources are never mixed. */
  function Chosen(resp: Option<Json>, render: Render, x: Contact.Extractors, text: string): (r: Fields)
    ensures AnyField(Gathered(resp, render)) ==>
              && Searchable(resp)
              && r.fullName == Locator.Search(resp.value, NameKeys)
              && r.email == Locator.Search(resp.value, EmailKeys)
              && r.phone == Locator.Search(resp.value, PhoneKeys)
              && r.address == Locator.Search(resp.value, AddressKeys)
              && r.linkedin == Locator.Search(resp.value, LinkedInKeys)
              && r.skills == NormalizeSkills(RawSkills(resp.value), render)
    ensures !AnyField(Gathered(resp, render)) ==>
              && r.fullName == Wrap(Names.ExtractName(text))
              && r.email == Wrap(Email.ExtractEmail(x.email, text))
              && r.phone == Wrap(Phone.ExtractPhone(x.phone, text))
              && r.address == Wrap(Addresses.ExtractAddress(x.address, text))
              && r.linkedin == Wrap(LinkedIn.ExtractLinkedIn(text))
              && r.skills == Skills.ExtractSkills(text)
  {
    var g := Gathered(resp, render);
    if AnyField(g) then g else Local(Contact.ExtractContactInfo(x, text))
  }

  // ---------------------------------------------------------------------
  // Properties of the skills normalisation.

  lemma {:induction false} StrippedAvoid(pieces: seq<string>, delims: set<char>)
    requires forall i :: 0 <= i < |pieces| ==> Avoids(pieces[i], delims)
    ensures forall k :: 0 <= k < |StrippedPieces(pieces)| ==> Avoids(StrippedPieces(pieces)[k], delims)
  {
    if pieces != [] {
      StrippedAvoid(pieces[1..], delims);
      StripAvoids(pieces[0], delims);
      var r := StrippedPieces(pieces);
      var rest := StrippedPieces(pieces[1..]);
      forall k | 0 <= k < |r| ensures Avoids(r[k], delims) {
        if Strip(pieces[0]) != [] && k > 0 {
          assert r[k] == rest[k - 1];
        } else if Strip(pieces[0]) == [] {
          assert r[k] == rest[k];
        }
      }
    }
  }

  /** Stripping and dropping blanks works piece by piece, so the entries keep the pieces' order. */
  lemma {:induction false} StrippedAppend(a: seq<string>, b: seq<string>)
    ensures StrippedPieces(a + b) == StrippedPieces(a) + StrippedPieces(b)
    decreases |a|
  {
    if a == [] {
      assert a + b == b;
    } else {
      assert (a + b)[0] == a[0] && (a + b)[1..] == a[1..] + b;
      StrippedAppend(a[1..], b);
    }
  }

  /** `x` is one of the pieces, stripped, and not blank. */
  ghost predicate StrippedPiece(pieces: seq<string>, x: string) {
    exists i :: 0 <= i < |pieces| && Strip(pieces[i]) != [] && x == Strip(pieces[i])
  }

  /** The entries are exactly the stripped pieces that are not blank. */
  lemma {:induction false} StrippedMembers(pieces: seq<string>, x: string)
    ensures x in StrippedPieces(pieces) <==> StrippedPiece(pieces, x)
    decreases |pieces|
  {
    if pieces != [] {
      StrippedMembers(pieces[1..], x);
      assert forall i :: 1 <= i < |pieces| ==> pieces[i] == pieces[1..][i - 1];
      if x in StrippedPieces(pieces[1..]) {
        var i :| 0 <= i < |pieces[1..]| && Strip(pieces[1..][i]) != [] && x == Strip(pieces[1..][i]);
        assert pieces[i + 1] == pieces[1..][i];
      }
    }
  }

  /** A string of skills gives every non-blank piece between separator runs,
      stripped, and nothing else. */
  lemma StringSkillsPieces(s: string, render: Render, x: string)
    ensures x in NormalizeSkills(Str(s), render) <==> StrippedPiece(SplitRuns(s, SkillSeparators), x)
  {
    var pieces := SplitRuns(s, SkillSeparators);
    assert NormalizeSkills(Str(s), render) == StrippedPieces(pieces);
    StrippedMembers(pieces, x);
  }

  /** A string of skills splits into non-empty, stripped entries with none of
      the separator characters in them, the letter `n` included. */
  lemma StringSkills(s: string, render: Render)
    ensures forall k :: 0 <= k < |NormalizeSkills(Str(s), render)| ==>
              var e := NormalizeSkills(Str(s), render)[k];
              e != [] && Strip(e) == e && Avoids(e, SkillSeparators)
  {
    SplitRunsPieces(s, SkillSeparators);
    StrippedAvoid(SplitRuns(s, SkillSeparators), SkillSeparators);
  }

  /** A list of strings keeps its entries as they are, whatever `str` does
      to other values. */
  lemma StringList(items: seq<Json>, render: Render)
    requires forall i :: 0 <= i < |items| ==> items[i].Str?
    ensures |NormalizeSkills(Arr(items), render)| == |items|
    ensures forall i :: 0 <= i < |items| ==> NormalizeSkills(Arr(items), render)[i] == items[i].s
  {
  }

  /** The letter `n` is a separator too: a run of separators that starts with
      it cuts a word, so `"Pytho" + "n," + " Java"` gives `["Pytho", "Java"]`. */
  lemma SeparatorRunSplits(a: string, run: string, b: string, render: Render)
    requires a != [] && Avoids(a, SkillSeparators) && Strip(a) == a
    requires run != [] && (forall k :: 0 <= k < |run| ==> run[k] in SkillSeparators)
    requires b != [] && Avoids(b, SkillSeparators) && Strip(b) != []
    ensures NormalizeSkills(Str(a + run + b), render) == [a, Strip(b)]
  {
    var s := a + run + b;
    SplitRunsPair(a, run, b, SkillSeparators);
    assert NormalizeSkills(Str(s), render) == StrippedPieces([a, b]);
    assert [a, b][1..] == [b];
    assert StrippedPieces([b]) == [Strip(b)] by {
      assert [b][1..] == [];
    }
    assert StrippedPieces([a, b]) == [a] + StrippedPieces([b]);
  }
}
