/** `extract_contact_info`: every extractor run on the same text, gathered
    into one record. */
module Contact {
  import opened Text
  import opened Regex
  import Names
  import Email
  import Phone
  import Addresses
  import LinkedIn
  import Skills

  /** The patterns the model leaves abstract, for the extractors that use them. */
  datatype Extractors = Extractors(email: Email.EmailMatcher, phone: Phone.PhonePatterns, address: Addresses.Patterns)

  /** The dictionary `extract_contact_info` returns. */
  datatype ContactInfo = ContactInfo(
    fullName: Option<string>,
    email: Option<string>,
    phone: Option<string>,
    address: Option<string>,
    linkedin: Option<string>,
    skills: seq<string>)

  /** The guarantees each extractor gives about its own field. */
  predicate WellFormed(c: ContactInfo) {
    && (c.fullName.Some? ==> Names.WordCountOk(c.fullName.value))
    && (c.email.Some? ==> NoUpper(c.email.value) && 6 <= |c.email.value|)
    && (c.phone.Some? ==> Phone.LongEnough(c.phone.value))
    && (c.address.Some? ==> c.address.value != [])
    && (c.linkedin.Some? ==> StartsWith(c.linkedin.value, "http"))
    && |c.skills| <= 20
  }

  function ExtractContactInfo(x: Extractors, text: string): (r: ContactInfo)
    ensures WellFormed(r)
  {
    ContactInfo(
      Names.ExtractName(text),
      Email.ExtractEmail(x.email, text),
      Phone.ExtractPhone(x.phone, text),
      Addresses.ExtractAddress(x.address, text),
      LinkedIn.ExtractLinkedIn(text),
      Skills.ExtractSkills(text))
  }

  /** Text without letters, digits, or an `@` after a local-part character
      yields no name, email, phone, profile or skills; only the abstract
      general address patterns could still find something. */
  lemma NoWordsNoContact(x: Extractors, text: string)
    requires All(text, NotLetter)
    requires forall k :: 0 <= k < |text| ==> !IsDigit(text[k])
    requires forall k :: 0 < k < |text| && text[k] == '@' ==> !Email.LocalChar(text[k - 1])
    ensures ExtractContactInfo(x, text)
         == ContactInfo(None, None, None, Cascade(Addresses.General(x.address, text), Addresses.AnyText), None, [])
  {
    Names.NoLettersNoName(text);
    Email.NoAtNoEmail(x.email, text);
    Phone.NoDigitNoPhone(x.phone, text);
    Addresses.NoLettersAddress(x.address, text);
    LinkedIn.NoLettersNoLinkedIn(text);
    Skills.NoLettersNoSkills(text);
  }

  /** The empty text yields nothing at all. */
  lemma EmptyText(x: Extractors)
    ensures ExtractContactInfo(x, "") == ContactInfo(None, None, None, None, None, [])
  {
    var text: string := [];
    NoWordsNoContact(x, text);
    Addresses.NoGeneralEmpty(x.address);
  }
}
