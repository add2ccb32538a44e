# Resume parser: contact extraction and the parse endpoint

A Dafny model of the contact-extraction core of RecruitFlow's resume-parsing
service. The model covers two parts.

- **The regular-expression contact extractor** (`contact_mapper.py`). It has
  six independent extractors, for name, email, phone, address, LinkedIn
  profile and skills. `extract_contact_info` gathers their results into one
  dictionary.
- **The decision logic of `parse_resume`** (`main.py`). This covers:
  - the file-extension gate;
  - the download outcome;
  - the choice of transcript: the third-party parser's text, else its
    serialised JSON, else the PDF or DOCX reader;
  - `_recursive_search` and `_normalize_skills`;
  - the all-or-nothing choice between the parser's fields and the regex
    extractor;
  - the flat response with its `''` defaults;
  - the 400/404/422/500 errors.

## Layout

One module per file. Modules follow the source's structure.

- `text.dfy` (`Text`): ASCII character classes and the Python `str`
  operations the source relies on: `lower`, `strip`, `strip(chars)`, `split()`,
  `split('\n')`, `re.split` on a class with and without `+`.
- `regex.dfy` (`Regex`): match spans and abstract matchers. It holds the
  ordered "first pattern whose match passes validation wins" cascade, and the
  concrete `re.search(re.escape(header) + r'\s*(...)', text, re.IGNORECASE)`
  header search. That search includes the backtracking of `\s*` and the greedy
  paragraph body.
- `email.dfy`, `phone.dfy`, `names.dfy`, `addresses.dfy`, `linkedin.dfy` and
  `skills.dfy` each model one extractor.
- `contact.dfy` models `extract_contact_info`.
- `json.dfy` models the JSON tree. It includes Python truthiness and
  `dict.get`.
- `locator.dfy` models `_recursive_search`.
- `structured.dfy` models:
  - the alias lists;
  - `_normalize_skills`;
  - the structured-or-regex choice.
- `endpoint.dfy` models `parse_resume`. It covers:
  - `Path(...).suffix` and `Path(...).name` on POSIX paths;
  - the effects, as a `Services` parameter;
  - the response and the error outcomes.

Some regular expressions are too involved to write out as matchers. Each is
an abstract function from the text to an optional span, constrained as
follows:

- the span is non-empty and inside the text;
- for email, the span has the pattern's `local@domain.top` shape;
- for every phone pattern, the span holds a digit and at most one `+`.

These are the email pattern, the five phone patterns, the three general
address patterns and the city-before-state search. Their order of use is part
of the model, and the cascades are proved over any matchers with those
properties.

The following are written out concretely:

- the name patterns and the line pre-filter;
- the header searches;
- the LinkedIn patterns;
- the state-code scan;
- the skills split, clean and dedup steps;
- the `startswith('http')` test.

## Behaviour reproduced as written

The model keeps these behaviours of the code as it stands.

- `_normalize_skills` splits on the class `[;,|\\n]+`. Inside a raw string
  that class holds a backslash and the letter `n`, not a newline. So
  `"Python, Java"` normalises to `["Pytho", "Java"]`. See
  `Structured.SeparatorRunSplits`.
- The phone check `re.sub(r'[^\d+]', '', phone)` keeps every `+`, not just a
  leading one. The `+` counts toward the 10-character threshold, so a phone
  may hold only nine digits. See `Phone.NineDigits`.
- `extract_phone` tries only the first match of each pattern. A too-short
  first match moves on to the next pattern, not the next match.
- `extract_skills` drops 1-character items as well as long ones.
- In `extract_skills`, the block after the header may begin on the next line,
  since `\s*` crosses newlines. It ends only at an empty line: a line holding
  only spaces does not end it.
- The email top-level class `[A-Z|a-z]` admits `|`. The classes also admit an
  address without a letter or digit, `_@-.||`. See
  `Email.PunctuationAddress`.
- The LinkedIn patterns match case-insensitively, but the `startswith('http')`
  test does not. So a match that starts with `HTTPS://` gets a second scheme
  prepended. See `LinkedIn.UpperCaseScheme`.
- The LinkedIn patterns after the first can never match once the first has
  failed. See `LinkedIn.LaterPatternsUnreachable`.
- `.doc` passes the extension gate and is read by the DOCX reader. The 400
  message lists only `.pdf, .docx`.
- The extension is `Path(file_path).suffix`. So a URL with a query string
  (`.pdf?dl=1`) is refused. So is a file named just `.pdf`, which has no
  suffix.
- When the third-party parser answers without a transcript, its
  `json.dumps` serialisation becomes the transcript. The regex extractor then
  runs over JSON text whenever no field is found in the response.

## Model

| member | source | states |
|---|---|---|
| Text.Lower | pythongit/imported_recruitflow/RecruitFlow/RecruitFlow/python-services/resume_parser/contact_mapper.py:28 | lower-casing keeps the length and maps each character on its own, upper-case ASCII to lower-case and everything else unchanged |
| Text.LowerIsLowerCase | pythongit/imported_recruitflow/RecruitFlow/RecruitFlow/python-services/resume_parser/contact_mapper.py:231 | a lower-cased string has no upper-case letter, and lower-casing it again changes nothing |
| Text.TrimSpec | pythongit/imported_recruitflow/RecruitFlow/RecruitFlow/python-services/resume_parser/contact_mapper.py:222 | `strip(chars)` is empty exactly when every character is stripped, and otherwise is the part of the input between a leading and a trailing run of stripped characters |
| Text.Strip | pythongit/imported_recruitflow/RecruitFlow/RecruitFlow/python-services/resume_parser/contact_mapper.py:88 | `strip()` never lengthens a string, and its result neither starts nor ends with whitespace |
| Text.WordsKeepText | pythongit/imported_recruitflow/RecruitFlow/RecruitFlow/python-services/resume_parser/contact_mapper.py:102 | `split()` loses exactly the whitespace: its words, concatenated, are the input with the whitespace removed |
| Text.Words | pythongit/imported_recruitflow/RecruitFlow/RecruitFlow/python-services/resume_parser/contact_mapper.py:102 | every word of `split()` is non-empty and holds no whitespace |
| Text.WordsStrip | pythongit/imported_recruitflow/RecruitFlow/RecruitFlow/python-services/resume_parser/contact_mapper.py:112-113 | stripping a string does not change its `split()` words, so the word count is checked on the stripped value without loss |
| Text.SplitRejoin | pythongit/imported_recruitflow/RecruitFlow/RecruitFlow/python-services/resume_parser/contact_mapper.py:75 | splitting on a delimiter class loses nothing: the pieces rejoined with the delimiters found give back the input |
| Text.Split | pythongit/imported_recruitflow/RecruitFlow/RecruitFlow/python-services/resume_parser/contact_mapper.py:75 | splitting on a delimiter class gives exactly one piece more than the input has delimiters, empty pieces included |
| Text.SplitRunsPieces | pythongit/imported_recruitflow/RecruitFlow/RecruitFlow/python-services/resume_parser/main.py:190 | no piece of a split on delimiter runs contains a delimiter |
| Text.SplitRunsPair | pythongit/imported_recruitflow/RecruitFlow/RecruitFlow/python-services/resume_parser/main.py:190 | one run of delimiters between two delimiter-free strings splits the text into exactly those two strings |
| Text.SplitRuns | pythongit/imported_recruitflow/RecruitFlow/RecruitFlow/python-services/resume_parser/main.py:190 | `re.split` on a class with `+` gives at least one piece; every piece but the first and the last is non-empty, and an input that does not start with a delimiter starts its first piece with that character |
| Text.SplitRunsRejoin | pythongit/imported_recruitflow/RecruitFlow/RecruitFlow/python-services/resume_parser/main.py:190 | splitting on delimiter runs loses nothing: there is one piece more than there are maximal runs, and the pieces rejoined with the runs give back the input |
| Regex.FirstAccepted | pythongit/imported_recruitflow/RecruitFlow/RecruitFlow/python-services/resume_parser/contact_mapper.py:51-59 | the cascade picks the first candidate, in order, whose match passes validation; it picks nothing exactly when no candidate passes |
| Regex.Cascade | pythongit/imported_recruitflow/RecruitFlow/RecruitFlow/python-services/resume_parser/contact_mapper.py:141-147 | the value chosen is present exactly when some candidate passes; it then passes validation and equals the first passing candidate |
| Regex.GroupStart | pythongit/imported_recruitflow/RecruitFlow/RecruitFlow/python-services/resume_parser/contact_mapper.py:142 | after a header, `\s*` then the body starts the group at a position the body can start from after whitespace only, and at the furthest such position, since the greedy `\s*` gives back only what it must; there is none exactly when the body can start nowhere |
| Regex.ParagraphEnd | pythongit/imported_recruitflow/RecruitFlow/RecruitFlow/python-services/resume_parser/contact_mapper.py:215 | the skills block runs from its start up to the end of the text or up to a newline followed by another newline or the end, and every newline inside it is followed by a non-newline |
| Regex.SearchHeader | pythongit/imported_recruitflow/RecruitFlow/RecruitFlow/python-services/resume_parser/contact_mapper.py:109-110 | the header search returns the leftmost position where the header pattern matches, and nothing exactly when it matches nowhere |
| Regex.SearchHeaderFinds | pythongit/imported_recruitflow/RecruitFlow/RecruitFlow/python-services/resume_parser/contact_mapper.py:143 | a position where the header pattern matches, with no match before it, is the one the search returns |
| Regex.AbsentHeader | pythongit/imported_recruitflow/RecruitFlow/RecruitFlow/python-services/resume_parser/contact_mapper.py:216 | a header the text does not contain, compared case-insensitively, is never found |
| Regex.LineAfterHeader | pythongit/imported_recruitflow/RecruitFlow/RecruitFlow/python-services/resume_parser/contact_mapper.py:142-145 | in "header value", with a one-line value that does not start with a space, the search finds the header at the start and captures exactly the value |
| Email.ExtractEmail | pythongit/imported_recruitflow/RecruitFlow/RecruitFlow/python-services/resume_parser/contact_mapper.py:12-29 | an email is returned exactly when the pattern matches; it is the lower-cased text of a match, has no upper-case letter, keeps the `local@domain.top` shape and has at least six characters |
| Email.LowerKeepsShape | pythongit/imported_recruitflow/RecruitFlow/RecruitFlow/python-services/resume_parser/contact_mapper.py:23-28 | lower-casing a match keeps it inside the pattern's character classes |
| Email.EmailLowered | pythongit/imported_recruitflow/RecruitFlow/RecruitFlow/python-services/resume_parser/contact_mapper.py:28 | a returned address is already lower case: lower-casing it again changes nothing |
| Email.NoAtNoEmail | pythongit/imported_recruitflow/RecruitFlow/RecruitFlow/python-services/resume_parser/contact_mapper.py:23-29 | text in which no `@` follows a local-part character yields no email |
| Email.PunctuationAddress | pythongit/imported_recruitflow/RecruitFlow/RecruitFlow/python-services/resume_parser/contact_mapper.py:23 | the character classes admit `_@-.\|\|`, an address with no letter or digit, because `\|` is literal inside a class |
| Phone.Cleaned | pythongit/imported_recruitflow/RecruitFlow/RecruitFlow/python-services/resume_parser/contact_mapper.py:57 | the cleaned phone is no longer than the match and holds only digits and `+` |
| Phone.CleanedCount | pythongit/imported_recruitflow/RecruitFlow/RecruitFlow/python-services/resume_parser/contact_mapper.py:57-58 | the cleaned length is the number of digits plus the number of `+` signs in the match, every `+` included |
| Phone.FirstMatch | pythongit/imported_recruitflow/RecruitFlow/RecruitFlow/python-services/resume_parser/contact_mapper.py:52-55 | a pattern's candidate is present exactly when the pattern matches, and is a non-empty piece of the text with a digit and at most one `+` |
| Phone.Candidates | pythongit/imported_recruitflow/RecruitFlow/RecruitFlow/python-services/resume_parser/contact_mapper.py:43-49 | there are five candidates, one per pattern, each a piece of the text when present |
| Phone.ExtractPhone | pythongit/imported_recruitflow/RecruitFlow/RecruitFlow/python-services/resume_parser/contact_mapper.py:32-61 | a returned phone is a piece of the text, unchanged, whose cleaned form has at least 10 characters |
| Phone.PhoneWins | pythongit/imported_recruitflow/RecruitFlow/RecruitFlow/python-services/resume_parser/contact_mapper.py:51-59 | the first pattern whose first match is long enough gives the phone, whatever the later patterns match |
| Phone.NineDigits | pythongit/imported_recruitflow/RecruitFlow/RecruitFlow/python-services/resume_parser/contact_mapper.py:56-59 | a returned phone holds at least nine digits; the tenth character may be a `+` |
| Phone.NoDigitNoPhone | pythongit/imported_recruitflow/RecruitFlow/RecruitFlow/python-services/resume_parser/contact_mapper.py:43-61 | text without a digit yields no phone |
| Names.ForbiddenIsClass | pythongit/imported_recruitflow/RecruitFlow/RecruitFlow/python-services/resume_parser/contact_mapper.py:94 | the pre-filter rejects a character exactly when it is a digit or one of the listed punctuation characters; period, hyphen and space pass |
| Names.CapWordEnd | pythongit/imported_recruitflow/RecruitFlow/RecruitFlow/python-services/resume_parser/contact_mapper.py:80 | `[A-Z][a-z]+` matches at a position exactly when an upper-case letter is followed by a lower-case one, and the greedy match ends at the first non-lower-case character |
| Names.PlainName | pythongit/imported_recruitflow/RecruitFlow/RecruitFlow/python-services/resume_parser/contact_mapper.py:80 | pattern 1's group is the whole line, which then has at least five characters, starts with an upper-case letter and ends with a lower-case one |
| Names.PlainTwoWords | pythongit/imported_recruitflow/RecruitFlow/RecruitFlow/python-services/resume_parser/contact_mapper.py:80 | two capitalised words joined by a space match pattern 1 as a whole line |
| Names.InitialName | pythongit/imported_recruitflow/RecruitFlow/RecruitFlow/python-services/resume_parser/contact_mapper.py:82 | pattern 2's group is the whole line, which then has at least eight characters, starts with an upper-case letter and ends with a lower-case one |
| Names.InitialLine | pythongit/imported_recruitflow/RecruitFlow/RecruitFlow/python-services/resume_parser/contact_mapper.py:82 | a capitalised word, a capital initial with its period and a capitalised word, joined by single spaces, match pattern 2 as a whole line |
| Names.TitledNameFound | pythongit/imported_recruitflow/RecruitFlow/RecruitFlow/python-services/resume_parser/contact_mapper.py:84 | pattern 3's group starts with an upper-case letter, ends with a lower-case one, and is the greedy run of capitalised words after one of the titles the line starts with, or after no title |
| Names.PatternName | pythongit/imported_recruitflow/RecruitFlow/RecruitFlow/python-services/resume_parser/contact_mapper.py:97-104 | the name is the stripped group of the first of the three patterns, in order, whose group has two to four words; None exactly when no pattern gives such a group |
| Names.NameFromLine | pythongit/imported_recruitflow/RecruitFlow/RecruitFlow/python-services/resume_parser/contact_mapper.py:87-104 | a line yields a name only if its stripped form is 3 to 50 characters long and passes the pre-filter, and the name has two to four words |
| Names.TopLines | pythongit/imported_recruitflow/RecruitFlow/RecruitFlow/python-services/resume_parser/contact_mapper.py:75 | the structural pass looks at the first ten lines of `split('\n')` in order, or at all of them when there are fewer |
| Names.TopLinesFirst | pythongit/imported_recruitflow/RecruitFlow/RecruitFlow/python-services/resume_parser/contact_mapper.py:75 | the first line looked at is the text up to its first newline |
| Names.FirstNamedLine | pythongit/imported_recruitflow/RecruitFlow/RecruitFlow/python-services/resume_parser/contact_mapper.py:87-104 | the line chosen is the first that yields a name; none is chosen exactly when no line yields one |
| Names.ExtractName | pythongit/imported_recruitflow/RecruitFlow/RecruitFlow/python-services/resume_parser/contact_mapper.py:64-116 | a returned name has two to four words; the first of the top ten lines that yields a name decides; the header fallback is used only when no such line yields one |
| Names.FirstNamedUnique | pythongit/imported_recruitflow/RecruitFlow/RecruitFlow/python-services/resume_parser/contact_mapper.py:87-104 | at most one line is the first to yield a name |
| Names.EarlierTitleFails | pythongit/imported_recruitflow/RecruitFlow/RecruitFlow/python-services/resume_parser/contact_mapper.py:84 | a line starting with one title starts with no earlier title of the alternation, so the titles never compete |
| Names.TitledLineNotPlain | pythongit/imported_recruitflow/RecruitFlow/RecruitFlow/python-services/resume_parser/contact_mapper.py:80-82 | patterns 1 and 2 do not match a line that starts with a title |
| Names.TitledLineName | pythongit/imported_recruitflow/RecruitFlow/RecruitFlow/python-services/resume_parser/contact_mapper.py:84-104 | a line of a title and two capitalised words yields the two words without the title |
| Names.TitleIsDropped | pythongit/imported_recruitflow/RecruitFlow/RecruitFlow/python-services/resume_parser/contact_mapper.py:64-116 | a text whose first line is a title and a two-word name yields that name without the title, for instance "Dr. Jane Smith" gives "Jane Smith" |
| Names.NamedFirstLine | pythongit/imported_recruitflow/RecruitFlow/RecruitFlow/python-services/resume_parser/contact_mapper.py:87-104 | a first line that yields a name decides the result, whatever text follows it |
| Names.FirstLineName | pythongit/imported_recruitflow/RecruitFlow/RecruitFlow/python-services/resume_parser/contact_mapper.py:87-104 | when the text's first line yields a name, that name is the result |
| Names.NoLettersNoName | pythongit/imported_recruitflow/RecruitFlow/RecruitFlow/python-services/resume_parser/contact_mapper.py:64-116 | text without an ASCII letter yields no name |
| Addresses.HeaderValue | pythongit/imported_recruitflow/RecruitFlow/RecruitFlow/python-services/resume_parser/contact_mapper.py:142-145 | a value captured after an address header is already stripped |
| Addresses.HeaderWins | pythongit/imported_recruitflow/RecruitFlow/RecruitFlow/python-services/resume_parser/contact_mapper.py:140-153 | the first header, in list order, whose value is acceptable gives the address, ahead of the general patterns and the state scan |
| Addresses.HeaderValueShape | pythongit/imported_recruitflow/RecruitFlow/RecruitFlow/python-services/resume_parser/contact_mapper.py:145-147 | an address taken from a header is stripped, non-empty and shorter than 100 characters |
| Addresses.GeneralWins | pythongit/imported_recruitflow/RecruitFlow/RecruitFlow/python-services/resume_parser/contact_mapper.py:149-153 | with no acceptable header, the first general pattern that matches gives the address, a piece of the text taken verbatim |
| Addresses.StateAtMeaning | pythongit/imported_recruitflow/RecruitFlow/RecruitFlow/python-services/resume_parser/contact_mapper.py:156 | a state token sits at a position exactly when the two capitals there are one of the listed codes and no word character touches them on either side |
| Addresses.StatesFrom | pythongit/imported_recruitflow/RecruitFlow/RecruitFlow/python-services/resume_parser/contact_mapper.py:156-157 | every token the state scan reports is two upper-case letters |
| Addresses.StatesComplete | pythongit/imported_recruitflow/RecruitFlow/RecruitFlow/python-services/resume_parser/contact_mapper.py:156-157 | every position holding a state code with word boundaries around it is reported by the scan |
| Addresses.StatesSound | pythongit/imported_recruitflow/RecruitFlow/RecruitFlow/python-services/resume_parser/contact_mapper.py:156-157 | every token the scan reports is a state code found at some position of the text |
| Addresses.NoStates | pythongit/imported_recruitflow/RecruitFlow/RecruitFlow/python-services/resume_parser/contact_mapper.py:157-159 | text with no state code at any position gives no state tokens |
| Addresses.CityBeforeState | pythongit/imported_recruitflow/RecruitFlow/RecruitFlow/python-services/resume_parser/contact_mapper.py:159-165 | an address from the state fallback is non-empty and comes from a city search that matched for one of the reported states |
| Addresses.CityFirstWins | pythongit/imported_recruitflow/RecruitFlow/RecruitFlow/python-services/resume_parser/contact_mapper.py:159-165 | the first reported state, in order, whose city search matches gives the address, and the address is that match stripped |
| Addresses.CityNone | pythongit/imported_recruitflow/RecruitFlow/RecruitFlow/python-services/resume_parser/contact_mapper.py:159-167 | the state fallback gives nothing exactly when no reported state's city search matches |
| Addresses.CityMatchEnds | pythongit/imported_recruitflow/RecruitFlow/RecruitFlow/python-services/resume_parser/contact_mapper.py:162-165 | a city match ends with its state code |
| Addresses.ExtractAddress | pythongit/imported_recruitflow/RecruitFlow/RecruitFlow/python-services/resume_parser/contact_mapper.py:119-167 | a returned address is never empty |
| Addresses.NoAddress | pythongit/imported_recruitflow/RecruitFlow/RecruitFlow/python-services/resume_parser/contact_mapper.py:119-167 | with no acceptable header, no general match and no state code there is no address |
| Addresses.LabelledAddress | pythongit/imported_recruitflow/RecruitFlow/RecruitFlow/python-services/resume_parser/contact_mapper.py:140-147 | "Address: " followed by a one-line value under 100 characters, with no surrounding space, gives exactly that value |
| Addresses.NoLettersAddress | pythongit/imported_recruitflow/RecruitFlow/RecruitFlow/python-services/resume_parser/contact_mapper.py:139-165 | in text without letters neither a header nor a state code is found, so only the general patterns can give an address |
| LinkedIn.ProfileAt | pythongit/imported_recruitflow/RecruitFlow/RecruitFlow/python-services/resume_parser/contact_mapper.py:183 | a profile match starts with `linkedin.com/in/`, compared case-insensitively, and takes at least one id character |
| LinkedIn.Leftmost | pythongit/imported_recruitflow/RecruitFlow/RecruitFlow/python-services/resume_parser/contact_mapper.py:188 | the search returns the leftmost position where the pattern matches, and nothing exactly when it matches nowhere in range |
| LinkedIn.SearchFull | pythongit/imported_recruitflow/RecruitFlow/RecruitFlow/python-services/resume_parser/contact_mapper.py:182-188 | the first pattern's search returns its leftmost match and nothing exactly when it matches at no position |
| LinkedIn.ExtractLinkedIn | pythongit/imported_recruitflow/RecruitFlow/RecruitFlow/python-services/resume_parser/contact_mapper.py:170-196 | a URL is returned exactly when a pattern matches, and it always starts with "http" |
| LinkedIn.SchemeAdded | pythongit/imported_recruitflow/RecruitFlow/RecruitFlow/python-services/resume_parser/contact_mapper.py:190-194 | a match starting with "http" is returned unchanged; any other gets exactly "https://" prepended |
| LinkedIn.ProfileIsFull | pythongit/imported_recruitflow/RecruitFlow/RecruitFlow/python-services/resume_parser/contact_mapper.py:182-183 | wherever the bare profile pattern matches, the first pattern matches too, with the same end |
| LinkedIn.LaterPatternsUnreachable | pythongit/imported_recruitflow/RecruitFlow/RecruitFlow/python-services/resume_parser/contact_mapper.py:181-189 | when the first pattern finds nothing, neither do the second and third |
| LinkedIn.FirstPatternDecides | pythongit/imported_recruitflow/RecruitFlow/RecruitFlow/python-services/resume_parser/contact_mapper.py:187-190 | the match used is always the first pattern's leftmost match |
| LinkedIn.BareProfile | pythongit/imported_recruitflow/RecruitFlow/RecruitFlow/python-services/resume_parser/contact_mapper.py:187-194 | "linkedin.com/in/" and an id gives the same text with "https://" in front |
| LinkedIn.SecureProfile | pythongit/imported_recruitflow/RecruitFlow/RecruitFlow/python-services/resume_parser/contact_mapper.py:187-194 | "https://linkedin.com/in/" and an id is returned as it is |
| LinkedIn.UpperCaseScheme | pythongit/imported_recruitflow/RecruitFlow/RecruitFlow/python-services/resume_parser/contact_mapper.py:188-193 | "HTTPS://linkedin.com/in/" and an id matches, fails the case-sensitive test, and gets a second scheme |
| LinkedIn.NoLettersNoLinkedIn | pythongit/imported_recruitflow/RecruitFlow/RecruitFlow/python-services/resume_parser/contact_mapper.py:181-196 | text without letters yields no profile |
| Skills.SkillBlock | pythongit/imported_recruitflow/RecruitFlow/RecruitFlow/python-services/resume_parser/contact_mapper.py:214-225 | there is no skills block exactly when no skills header is found |
| Skills.FirstHeaderDecides | pythongit/imported_recruitflow/RecruitFlow/RecruitFlow/python-services/resume_parser/contact_mapper.py:214-225 | the first header in list order that is found supplies the block, whatever the later headers would give |
| Skills.NoSkillHeader | pythongit/imported_recruitflow/RecruitFlow/RecruitFlow/python-services/resume_parser/contact_mapper.py:209-235 | without any skills header there are no skills |
| Skills.Kept | pythongit/imported_recruitflow/RecruitFlow/RecruitFlow/python-services/resume_parser/contact_mapper.py:221-224 | every item kept passes the filter: non-empty and 2 to 49 characters long |
| Skills.KeptComplete | pythongit/imported_recruitflow/RecruitFlow/RecruitFlow/python-services/resume_parser/contact_mapper.py:221-224 | every item whose cleaned form passes the filter is kept, in its cleaned form |
| Skills.KeptAppend | pythongit/imported_recruitflow/RecruitFlow/RecruitFlow/python-services/resume_parser/contact_mapper.py:221-224 | the filter works item by item: the items kept from two lists in a row are those kept from the first followed by those kept from the second, so the order is kept |
| Skills.RawSkillsAreSkills | pythongit/imported_recruitflow/RecruitFlow/RecruitFlow/python-services/resume_parser/contact_mapper.py:218-224 | every item gathered from the block is 2 to 49 characters, stripped of spaces and hyphens at both ends, and holds no delimiter |
| Skills.Dedup | pythongit/imported_recruitflow/RecruitFlow/RecruitFlow/python-services/resume_parser/contact_mapper.py:227-233 | the loop with its `seen` set computes the reference first-of-each-spelling list |
| Skills.FirstSeenFirsts | pythongit/imported_recruitflow/RecruitFlow/RecruitFlow/python-services/resume_parser/contact_mapper.py:227-233 | every entry kept is an input entry with no earlier entry of the same spelling, ignoring case |
| Skills.FirstSeenDistinct | pythongit/imported_recruitflow/RecruitFlow/RecruitFlow/python-services/resume_parser/contact_mapper.py:227-233 | no two entries kept are equal ignoring case |
| Skills.FirstSeenCovers | pythongit/imported_recruitflow/RecruitFlow/RecruitFlow/python-services/resume_parser/contact_mapper.py:227-233 | every input entry's spelling, ignoring case, is kept |
| Skills.RepeatDropped | pythongit/imported_recruitflow/RecruitFlow/RecruitFlow/python-services/resume_parser/contact_mapper.py:231 | of two entries that differ only in case, the later one is dropped |
| Skills.Capped | pythongit/imported_recruitflow/RecruitFlow/RecruitFlow/python-services/resume_parser/contact_mapper.py:235 | the first twenty skills are returned in order, or all of them when there are fewer |
| Skills.ExtractSkills | pythongit/imported_recruitflow/RecruitFlow/RecruitFlow/python-services/resume_parser/contact_mapper.py:199-235 | the result has at most twenty skills, each 2 to 49 characters, stripped and free of the list delimiters, pairwise distinct ignoring case |
| Skills.SkillsCover | pythongit/imported_recruitflow/RecruitFlow/RecruitFlow/python-services/resume_parser/contact_mapper.py:227-235 | when the block has at most twenty distinct skills, every skill in it is in the result, up to case |
| Skills.SingleSkill | pythongit/imported_recruitflow/RecruitFlow/RecruitFlow/python-services/resume_parser/contact_mapper.py:212-235 | "Skills: " followed by one clean item gives exactly that item |
| Skills.NoLettersNoSkills | pythongit/imported_recruitflow/RecruitFlow/RecruitFlow/python-services/resume_parser/contact_mapper.py:212-225 | text without letters has no skills |
| Contact.ExtractContactInfo | pythongit/imported_recruitflow/RecruitFlow/RecruitFlow/python-services/resume_parser/contact_mapper.py:238-263 | every field of the record meets its extractor's guarantee: 2 to 4 name words, a lower-case email, a long-enough phone, a non-empty address, a profile starting with "http", at most twenty skills |
| Contact.NoWordsNoContact | pythongit/imported_recruitflow/RecruitFlow/RecruitFlow/python-services/resume_parser/contact_mapper.py:250-257 | text with no ASCII letter, no digit, and no `@` after a local-part character yields no name, email, phone, profile or skills; only the abstract general address patterns remain |
| Contact.EmptyText | pythongit/imported_recruitflow/RecruitFlow/RecruitFlow/python-services/resume_parser/contact_mapper.py:250-257 | the empty text yields every field absent and no skills |
| Json.Get | pythongit/imported_recruitflow/RecruitFlow/RecruitFlow/python-services/resume_parser/main.py:162-166 | a lookup finds a value exactly when an entry has the key, and then it is the value of the first such entry |
| Json.FalsyValues | pythongit/imported_recruitflow/RecruitFlow/RecruitFlow/python-services/resume_parser/main.py:162 | a JSON value is false exactly when it is `None`, `False`, zero, the empty string, the empty list or the empty object |
| Locator.DirectHit | pythongit/imported_recruitflow/RecruitFlow/RecruitFlow/python-services/resume_parser/main.py:161-163 | a direct hit is a truthy value stored under one of the aliases; there is none exactly when no alias holds a truthy value |
| Locator.ContainerHit | pythongit/imported_recruitflow/RecruitFlow/RecruitFlow/python-services/resume_parser/main.py:164-170 | a value found in a wrapper object is truthy and stored under an alias inside the tree |
| Locator.Search | pythongit/imported_recruitflow/RecruitFlow/RecruitFlow/python-services/resume_parser/main.py:156-181 | a value found is truthy and stored under one of the aliases in some object of the tree |
| Locator.SearchComplete | pythongit/imported_recruitflow/RecruitFlow/RecruitFlow/python-services/resume_parser/main.py:156-181 | when some object of the tree holds a truthy value under an alias, the search finds a value |
| Locator.DirectWins | pythongit/imported_recruitflow/RecruitFlow/RecruitFlow/python-services/resume_parser/main.py:160-163 | an alias with a truthy value in the top object wins over anything nested, and alias order decides between aliases |
| Locator.ContainerWins | pythongit/imported_recruitflow/RecruitFlow/RecruitFlow/python-services/resume_parser/main.py:164-175 | with no alias in the top object, the first wrapper, in container order, that holds one supplies the value, ahead of the full descent |
| Structured.NormalizeSkills | pythongit/imported_recruitflow/RecruitFlow/RecruitFlow/python-services/resume_parser/main.py:183-191 | `None` gives no skills; a list gives one entry per element, in order, a string element as itself and any other rendered by `str`; a string gives non-empty stripped pieces; any other value gives the single entry `str(value)` |
| Structured.StringList | pythongit/imported_recruitflow/RecruitFlow/RecruitFlow/python-services/resume_parser/main.py:186-187 | a list of strings normalises to exactly those strings, in order |
| Structured.StringSkills | pythongit/imported_recruitflow/RecruitFlow/RecruitFlow/python-services/resume_parser/main.py:188-190 | the pieces of a skills string are non-empty, stripped, and hold none of the separator characters, the letter `n` included |
| Structured.StrippedAppend | pythongit/imported_recruitflow/RecruitFlow/RecruitFlow/python-services/resume_parser/main.py:190 | stripping and dropping blank pieces works piece by piece, so the entries keep the pieces' order |
| Structured.StrippedMembers | pythongit/imported_recruitflow/RecruitFlow/RecruitFlow/python-services/resume_parser/main.py:190 | the entries are exactly the pieces that are not blank, each stripped |
| Structured.StringSkillsPieces | pythongit/imported_recruitflow/RecruitFlow/RecruitFlow/python-services/resume_parser/main.py:188-190 | a skills string gives, stripped, every piece between separator runs that is not blank, and nothing else |
| Structured.SeparatorRunSplits | pythongit/imported_recruitflow/RecruitFlow/RecruitFlow/python-services/resume_parser/main.py:190 | a run of separators between two words splits the string there, and a run may start with the letter `n` |
| Structured.FromResponse | pythongit/imported_recruitflow/RecruitFlow/RecruitFlow/python-services/resume_parser/main.py:195-203 | each field is present and truthy exactly when the search under its aliases finds a value |
| Structured.Chosen | pythongit/imported_recruitflow/RecruitFlow/RecruitFlow/python-services/resume_parser/main.py:193-207 | when the gathered dictionary has any truthy field, every field is the alias search of the object response (the skills its normalised skill value); otherwise every field is the corresponding extractor's result on the text, so the two sources are never mixed |
| Endpoint.LastIndex | pythongit/imported_recruitflow/RecruitFlow/RecruitFlow/python-services/resume_parser/main.py:106 | the index found holds the character and no later index does; -1 means the character is absent |
| Endpoint.Name | pythongit/imported_recruitflow/RecruitFlow/RecruitFlow/python-services/resume_parser/main.py:126 | a path's final component holds no slash and is never `.` |
| Endpoint.NameOfPath | pythongit/imported_recruitflow/RecruitFlow/RecruitFlow/python-services/resume_parser/main.py:126 | a component without slashes is the name of itself and of any path that ends with it after a slash |
| Endpoint.Suffix | pythongit/imported_recruitflow/RecruitFlow/RecruitFlow/python-services/resume_parser/main.py:106 | a suffix is a dot followed by at least one character and no other dot; it ends the name and is shorter than the name |
| Endpoint.ExtensionShape | pythongit/imported_recruitflow/RecruitFlow/RecruitFlow/python-services/resume_parser/main.py:106 | an extension is empty, or a dot followed by at least one character with no other dot; it has no upper-case letter |
| Endpoint.SuffixOf | pythongit/imported_recruitflow/RecruitFlow/RecruitFlow/python-services/resume_parser/main.py:106 | a name made of a non-empty base and an extension has that extension as its suffix |
| Endpoint.DotfileHasNoSuffix | pythongit/imported_recruitflow/RecruitFlow/RecruitFlow/python-services/resume_parser/main.py:106 | a name whose only dot starts it has no suffix |
| Endpoint.TrailingDotNoSuffix | pythongit/imported_recruitflow/RecruitFlow/RecruitFlow/python-services/resume_parser/main.py:106 | a name ending in a dot has no suffix |
| Endpoint.ExtensionOf | pythongit/imported_recruitflow/RecruitFlow/RecruitFlow/python-services/resume_parser/main.py:106 | the extension of `base.e`, alone or under any directory, is `.e` lower-cased |
| Endpoint.UpperCaseAccepted | pythongit/imported_recruitflow/RecruitFlow/RecruitFlow/python-services/resume_parser/main.py:106-108 | `Resume.PDF` has the extension `.pdf` and so is accepted |
| Endpoint.QueryStringRejected | pythongit/imported_recruitflow/RecruitFlow/RecruitFlow/python-services/resume_parser/main.py:106-112 | a path ending in `.pdf?dl=1` does not have an accepted extension |
| Endpoint.DotfileRejected | pythongit/imported_recruitflow/RecruitFlow/RecruitFlow/python-services/resume_parser/main.py:106-112 | a file named just `.pdf` has no extension |
| Endpoint.UploadName | pythongit/imported_recruitflow/RecruitFlow/RecruitFlow/python-services/resume_parser/main.py:126 | the file name sent to the third-party parser is never empty |
| Endpoint.FromAffinda | pythongit/imported_recruitflow/RecruitFlow/RecruitFlow/python-services/resume_parser/main.py:119-138 | without a key the parser is not asked; with one, an answer is kept as the response and an exception leaves neither response nor text; the text is non-empty exactly when a response is kept |
| Endpoint.Transcribe | pythongit/imported_recruitflow/RecruitFlow/RecruitFlow/python-services/resume_parser/main.py:121-145 | when the third-party parser answered, its transcript, or its serialisation, is the text; the local readers are not consulted |
| Endpoint.OrEmpty | pythongit/imported_recruitflow/RecruitFlow/RecruitFlow/python-services/resume_parser/main.py:216-220 | a response field is the value found when that is truthy, and exactly the empty string otherwise, never `None` |
| Endpoint.ParseResume | pythongit/imported_recruitflow/RecruitFlow/RecruitFlow/python-services/resume_parser/main.py:105-237 | an error has status 400, 404, 422 or 500; a 400 happens exactly for an extension outside `.pdf`, `.docx`, `.doc`; a success echoes the path, carries the accepted lower-case extension and a non-empty text with its length, and has no `None` field |
| Endpoint.UnsupportedFirst | pythongit/imported_recruitflow/RecruitFlow/RecruitFlow/python-services/resume_parser/main.py:106-112 | an unsupported extension gives 400 with the listed message, whatever the file system, parser and readers would do |
| Endpoint.MissingFile | pythongit/imported_recruitflow/RecruitFlow/RecruitFlow/python-services/resume_parser/main.py:44-67 | a file that cannot be found gives 404, worded for a URL or for a local path |
| Endpoint.AffindaTextWins | pythongit/imported_recruitflow/RecruitFlow/RecruitFlow/python-services/resume_parser/main.py:123-129 | a non-empty transcript from the third-party parser is the response text, and the PDF and DOCX readers do not affect the result |
| Endpoint.SerialisedWhenNoText | pythongit/imported_recruitflow/RecruitFlow/RecruitFlow/python-services/resume_parser/main.py:128-136 | an answer without a transcript is never a 422: its JSON serialisation becomes the text |
| Endpoint.LocalReaderDecides | pythongit/imported_recruitflow/RecruitFlow/RecruitFlow/python-services/resume_parser/main.py:140-151 | without an answer, an exception from the local reader gives 500, empty text gives 422, and other text is parsed with that text |
| Endpoint.DocIsReadAsDocx | pythongit/imported_recruitflow/RecruitFlow/RecruitFlow/python-services/resume_parser/main.py:144-145 | a `.doc` file is read by the DOCX reader |
| Endpoint.ParserFieldsOnly | pythongit/imported_recruitflow/RecruitFlow/RecruitFlow/python-services/resume_parser/main.py:195-221 | when the parser's JSON provides any field, every response field is the search result under its aliases, defaulted to `''`, and the skills are the normalised search result |
| Endpoint.ExtractorFieldsOnly | pythongit/imported_recruitflow/RecruitFlow/RecruitFlow/python-services/resume_parser/main.py:205-221 | when it provides none, every response field comes from the regex extractor run on the response text |
| Endpoint.NoStructuredResponse | pythongit/imported_recruitflow/RecruitFlow/RecruitFlow/python-services/resume_parser/main.py:195 | a response that is not a non-empty object provides no field |

## Left out

- Unicode: character classes (`\s`, `\d`, `\w`, `[A-Z]`, `isspace`) and case
  folding (`lower`, `re.IGNORECASE`) are ASCII only. Python applies them to
  all of Unicode.
- The email pattern, the five phone patterns, the three general address
  patterns and the city-before-state search are abstract matchers. Only
  their order of use and the properties of their matches are modelled.
- Email.ExtractEmail: does not state which match the email regex finds,
  because that regex is abstract.
- Phone.ExtractPhone: does not state which piece each phone pattern matches,
  because those regexes are abstract.
- Addresses.ExtractAddress: states the general patterns' and the city
  search's results only through their abstract matchers.
- Names.TitleIsDropped: covers titles followed by a two-word name only.
  Three- and four-word names are not stated.
- Addresses.StateAtMeaning: states that the two characters are capitals
  next to list membership, rather than deriving it from the fifty codes.
- Skills.SkillsCover: holds only when the block has at most twenty distinct
  skills, since later skills are cut.
- Cyclic structures: cycles cannot occur in an inductive JSON value, so no
  visited-node guard is modelled.
- `download_file_from_storage` (`main.py:44-70`) is a parameter answering
  the bytes, not-found or another failure. An HTTP status other than 200 is
  its not-found answer. The `Path.cwd()` retry is inside that parameter.
- The PDF and DOCX readers, the third-party parser's HTTP client, and the
  `AFFINDA_API_KEY` environment variable are parameters of `Services`.
- `json.dumps` is an abstract function that never returns the empty string.
  Its exception branch (`main.py:135-136`) cannot be reached for the JSON
  values modelled.
- Python's `str(x)` for non-string values in `_normalize_skills` is an
  abstract rendering. The model fixes only that a string renders as itself.
- JSON objects are ordered entry lists, and duplicate keys are kept.
  A duplicate key is looked up by its first entry, although Python's dict
  keeps the last. The descent of `_recursive_search` visits every entry,
  duplicates included, whereas `obj.values()` sees one value per key: the
  last one, at the position of the key's first entry.
- JSON numbers are reals, so `NaN` and `Infinity`, which `json.loads`
  accepts and Python treats as true, are not modelled.
- The text of an exception in a 500 message is whatever the failing
  service reports.
- Logging, `extracted_count`, the FastAPI app, CORS, the `/` and `/health`
  endpoints and the service launchers are not modelled. None of them
  affects a result.
- Paths are POSIX paths. Windows separators and drive letters are not
  modelled, and neither are the suffix rules of Python versions after 3.13.
- The concrete nested Affinda response from the mapping test is not stated
  as an example. Its behaviour is covered for all trees by
  `Locator.ContainerWins` and `Endpoint.ParserFieldsOnly`.
