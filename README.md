# scrapers-ca `utils.py`: the cleaning core, in Dafny

Every scraper of the Canadian representatives project passes the strings it
reads through `utils.py`. This project models that core and proves what it
promises. There are four pure normalisers:

- `clean_string` remaps three problem characters (to a space, an
  apostrophe and a no-break space, U+00A0), collapses whitespace, strips
  both ends and tightens the spaces around newlines.
- `clean_name` removes one leading honorific and a trailing `, Ph.D`.
- `clean_telephone_number` prints North American numbers as `1-AAA-PPP-LLLL`
  with an optional ` x<extension>`.
- `clean_address` corrects a letter O in a postal code, abbreviates the
  province or territory, and reformats the last line.

There are also two person classes. They clean everything they are given,
spell out a gender of `M`/`F`, and append links and contact details that are
classified through two fixed tables.

Modules, one per part of the program:

- `Chars` holds the character classes the regular expressions use.
- `Options` is a plain option type.
- `Sanitize` is `clean_string`.
- `Names` is `clean_name`.
- `Telephone` is `clean_telephone_number`.
- `Address` is `clean_address`.
- `Contacts` holds the two tables and the values `add_contact_detail`,
  `add_link` and `__setattr__` compute.
- `People` holds the classes `CanadianPerson` and `AggregationPerson`.

How the model is written:

- Each regular expression is an explicit scanner, over positions or over suffixes. The
  scanner follows the backtracking matcher's order of alternatives and its
  greedy choices.
- The pure functions are Dafny functions, and their properties are stated as
  postconditions and lemmas.
- The two classes are Dafny classes whose methods update their fields in
  place. Each method states the complete new state as a function of the old
  one, and the methods preserve the classes' invariants.

Behaviour of the code worth knowing:

- **Unrecognized phone numbers.** `clean_telephone_number` returns its
  argument as given, not a sanitized copy. The caller sanitizes it first
  (utils.py:122).
- **Splitting phone numbers.** The split is on *every* extension marker, not
  only the first. Three or more segments leave the number untouched.
- **Empty contact type.** `add_contact_detail` raises nothing for an empty
  type. The type stays empty and the value is only cleaned.
- **Idempotence.** `clean_name` and `clean_telephone_number` are not
  idempotent (`CleanNameNotIdempotent`, `CleanTelephoneNumberNotIdempotent`).
  `clean_address` is not either: `, Ontario` becomes ` ON` on the first pass
  and loses its leading space on the second.
- **Every `O` in a postal code.** Every `O` inside a postal-code-shaped token
  becomes `0`, including one in a letter position. So `L0N 0O1` becomes
  `L0N 001`. That is no longer a postal code, and the province before it is
  then not abbreviated.
- **The `\xc2` entry.** The translation table maps `\xc2` to a no-break space
  (U+00A0), not to an ordinary space. The whitespace step then collapses it
  into a space.

## Model

| member | source | states |
|---|---|---|
| Chars.Lower | utils.py:119 | lower-casing keeps the length and lower-cases each character |
| Chars.LowerIdempotent | utils.py:119 | lower-casing twice is lower-casing once |
| Sanitize.Translate | utils.py:156-160 | `s.translate(table)`: each character through the table (no contract; see `TranslateShape`) |
| Sanitize.TranslateShape | utils.py:156-160 | no remapped character is left, and a string without one is unchanged |
| Sanitize.BlankRun | utils.py:152 | the run of `[^\S\n]` it measures is maximal, and it is nonempty when the string starts with such a character |
| Sanitize.BlankRunBlanks | utils.py:152 | every character of the run is whitespace other than the newline |
| Sanitize.Collapse | utils.py:152 | `whitespace_re.sub(' ', …)` (no contract; see the `Collapse…` lemmas) |
| Sanitize.CollapseConcat | utils.py:152 | the substitution works piecewise on two pieces that do not meet inside a whitespace run |
| Sanitize.CollapseBlankRun | utils.py:152 | a whole run of whitespace other than the newline becomes exactly one space |
| Sanitize.CollapseJoins | utils.py:152 | two pieces joined by such a run come out joined by exactly one space |
| Sanitize.Strip | utils.py:184 | `str.strip()` (no contract; see `StripShape`) |
| Sanitize.StripShape | utils.py:184 | the result has no whitespace at either end, and a string without any there is unchanged |
| Sanitize.StripVisible | utils.py:184 | stripping removes only whitespace |
| Sanitize.StripLeft | utils.py:184 | the leading half of `strip()` leaves a string that does not start with whitespace |
| Sanitize.StripLeftIsSuffix | utils.py:184 | what the leading strip keeps is a suffix of its argument |
| Sanitize.StripLeftRemovesSpaces | utils.py:184 | everything the leading strip removes is whitespace |
| Sanitize.StripRight | utils.py:184 | the trailing half keeps a prefix that does not end with whitespace |
| Sanitize.StripRightRemovesSpaces | utils.py:184 | everything the trailing strip removes is whitespace |
| Sanitize.SpaceRun | utils.py:184 | the run of spaces `' *'` it measures is maximal |
| Sanitize.Tighten | utils.py:184 | `re.sub(r' *\n *', '\n', …)` (no contract; see `TightenJoinsLines`, `TightenSpacing`, `TightenVisible`) |
| Sanitize.TightenPrefix | utils.py:184 | a prefix with no doubled space, no space beside a newline and no whitespace at its end is copied unchanged |
| Sanitize.TightenNewline | utils.py:184 | spaces, a newline and spaces at the start of the string become one newline |
| Sanitize.TightenJoinsLines | utils.py:184 | each match of ` *\n *` becomes exactly one newline: the spaces on both sides go and the newline stays |
| Sanitize.AfterNewline | utils.py:184 | a match of `' *\n *'` consumes only whitespace, and the scan resumes after its last space |
| Sanitize.CollapseSingle | utils.py:152 | after the whitespace substitution, no two spaces are adjacent |
| Sanitize.CollapseVisible | utils.py:152 | the whitespace substitution keeps every visible character, in order |
| Sanitize.TightenSpacing | utils.py:184 | after the newline substitution, no space is next to a newline and no two spaces are adjacent |
| Sanitize.TightenVisible | utils.py:184 | the newline substitution keeps every visible character, in order |
| Sanitize.CleanString | utils.py:183-184 | `clean_string` as the four stages in order (no contract; see the lemmas below) |
| Sanitize.CollapseAroundNewline | utils.py:152 | the whitespace substitution keeps a newline and turns each run of other whitespace beside it into one space |
| Sanitize.CleanStringJoinsLines | utils.py:183-184 | two clean pieces separated by a newline, with any other whitespace on either side, come out separated by exactly one newline |
| Sanitize.CleanStringJoinsWords | utils.py:183-184 | two clean pieces separated by any run of whitespace other than the newline come out separated by exactly one space |
| Sanitize.CleanStringIsClean | utils.py:183-184 | the result has no remapped character, no whitespace except spaces and newlines, no doubled space, no whitespace at either end, and no space beside a newline |
| Sanitize.CleanStringKeepsVisible | utils.py:183-184 | `clean_string` changes only whitespace and the three remapped characters; the visible characters keep their order |
| Sanitize.CleanStringFixesExactlyClean | utils.py:183-184 | a string is left unchanged exactly when it is already clean (both directions) |
| Sanitize.CleanStringIdempotent | utils.py:183-184 | `clean_string` is idempotent |
| Names.PrefixMatchIsTitle | utils.py:153 | what the honorific pattern matches is one listed word, an optional dot and a space |
| Names.PrefixMatchFinds | utils.py:153 | when the string begins with a title, the pattern matches exactly that title |
| Names.TitleOf | utils.py:153 | the removed prefix is empty or the one title the string begins with; no other title begins the string |
| Names.StripHonorifics | utils.py:187-188 | the string is the removed title, then the result, then `, Ph.D` exactly when the rest ended with it |
| Names.CleanName | utils.py:187-188 | `clean_name` as the two substitutions after `clean_string` (no contract; see the lemmas around it) |
| Names.CleanNameDropsTitle | utils.py:187-188 | on a clean `title + r` without the suffix, `clean_name` gives `r` |
| Names.CleanNameDropsTitleAndPhD | utils.py:187-188 | on a clean `title + r + ", Ph.D"`, `clean_name` gives `r` |
| Names.CleanNameNotIdempotent | utils.py:187-188 | only one title is removed: `Mr Mr X` gives `Mr X`, and a second pass gives `X` |
| Telephone.SeparatorEnd | utils.py:196 | the optional separator is taken only when the lookahead holds after it, and the marker fails only when the lookahead fails without the separator too |
| Telephone.KeywordEnds | utils.py:196 | every keyword alternative found ends after its lead character |
| Telephone.FirstMatch | utils.py:196 | the marker fails exactly when no keyword end is followed by a matching separator and lookahead |
| Telephone.NextMarker | utils.py:196 | the search stops at a marker or at the end of the string |
| Telephone.NextMarkerLeftmost | utils.py:196 | no marker starts before the one the search finds |
| Telephone.SkipNoLead | utils.py:196 | a stretch without a lead character holds no marker |
| Telephone.Split | utils.py:196 | the first segment runs up to the first marker; there is one segment exactly when there is no marker |
| Telephone.DigitsOf | utils.py:197 | `re.sub(r'\D', '', s)` keeps only digits, and keeps a string of digits whole |
| Telephone.DigitsOfConcat | utils.py:197 | removing the non-digits distributes over concatenation |
| Telephone.Hyphenate | utils.py:203 | the substitution `\1-\2-\3-\4` on eleven digits (no contract; see the two lemmas below) |
| Telephone.HyphenateDigits | utils.py:203 | hyphenating eleven digits loses no digit |
| Telephone.HyphenateCanonical | utils.py:203 | eleven digits starting with 1 hyphenate to the form `1-AAA-PPP-LLLL` |
| Telephone.CanonicalIsHyphenated | utils.py:203 | every number in the canonical form is the hyphenation of its own digits |
| Telephone.CleanTelephoneNumber | utils.py:191-209 | a recognized number gives the canonical form carrying the last ten digits of its main segment, followed by ` x` and the second segment when there is one; anything else is returned unchanged |
| Telephone.CanonicalIsFixed | utils.py:199-207 | a canonical number is left as it is |
| Telephone.CanonicalWithExtensionIsFixed | utils.py:199-207 | a canonical number with a numeric extension is left as it is |
| Telephone.CleanTelephoneNumberIdempotent | utils.py:191-209 | for a number whose extension is absent or numeric, a second pass changes nothing |
| Telephone.LetterExtensionIsDropped | utils.py:196-207 | after ` x`, an extension made only of ASCII letters, none of them a marker's first letter (`x`, `e`, `p`, in either case), is not split off, so it is dropped |
| Telephone.CleanTelephoneNumberNotIdempotent | utils.py:191-209 | `AAAPPPLLLL ext word` gives `1-AAA-PPP-LLLL xword` and then `1-AAA-PPP-LLLL` |
| Telephone.WrongLengthPassesThrough | utils.py:208-209 | a number without any character that can begin a marker (`/`, `x`, `e`, `p`, in either case), whose digits are neither ten nor eleven, is returned exactly as given |
| Telephone.SpacedNumber | utils.py:191-207 | `AAA PPP LLLL` gives `1-AAA-PPP-LLLL` |
| Telephone.BracketedNumber | utils.py:191-207 | `(AAA) PPP-LLLL` gives `1-AAA-PPP-LLLL` |
| Telephone.DottedExtensionNumber | utils.py:191-207 | `AAA-PPP-LLLL ext. NNN` gives `1-AAA-PPP-LLLL xNNN` |
| Address.PostalMatchLen | utils.py:219 | the length is positive exactly when the pattern matches there (each character class in order, a word boundary at both ends), and it is 7 exactly when the optional whitespace is taken |
| Address.ZeroOs | utils.py:219 | `.replace('O', '0')` keeps the length and changes exactly the O's |
| Address.FixPostal | utils.py:219 | the first substitution keeps the length |
| Address.FixPostalChanges | utils.py:219 | the only characters that change are O's inside a matched token, and each becomes 0 |
| Address.FixPostalFromReaches | utils.py:219 | when no token found earlier reaches past a position, the scan arrives there and continues from it |
| Address.FixPostalCorrectsToken | utils.py:219 | a token that no earlier token overlaps comes out with every O turned into 0 and every other character kept |
| Address.SepRun | utils.py:221 | the run of `[,\n ]` it measures is maximal |
| Address.SepRunAll | utils.py:221 | every character of the run is a separator |
| Address.AbbreviationsShape | utils.py:164-180 | every name in the table starts with a capital, and every abbreviation is two capitals |
| Address.KeyEnd | utils.py:221 | a match ends right after the key or one further after a `)`, and only an optional `, Canada` and postal code follow it; the `)` is taken whenever the lookahead then holds, and the match fails only when neither end is followed by the lookahead |
| Address.ProvinceMatch | utils.py:221 | a match starts with separators, the key occurs, and only the allowed tail follows |
| Address.AfterSeparators | utils.py:221 | after the separators, a match of `\(?k\)?` with the lookahead ends inside the string, and only the allowed tail follows it |
| Address.AfterSeparatorsShape | utils.py:221 | after the separators the match is the key's, or it is an opening parenthesis and then the key's |
| Address.ProvinceMatchShape | utils.py:221 | a match needs a separator run; after it comes the key, or `(` and then the key |
| Address.ProvinceMatchTakesParen | utils.py:221 | the optional `(` is taken whenever the rest then matches |
| Address.ProvinceMatchFindsKey | utils.py:221 | a key after a nonempty separator run, followed by the lookahead, always gives a match |
| Address.ReplaceFrom | utils.py:221 | (no contract; the scan `re.sub` performs: a match is replaced and the scan resumes at its end, elsewhere one character is copied; see ReplaceCopies, ReplaceOne) |
| Address.ReplaceCopies | utils.py:221 | where no match starts in `[lo, i)`, `re.sub` copies those characters unchanged |
| Address.ReplaceOne | utils.py:221 | a single match from `i` to `e` is replaced and every other character is kept: `s[..i] + rep + s[e..]` |
| Address.Substitute | utils.py:221 | (no contract; one pass of the loop body; see SubstituteWithoutKey, SubstituteOne) |
| Address.SubstituteWithoutKey | utils.py:221 | a string in which the province key does not occur is unchanged by its substitution |
| Address.SubstituteOne | utils.py:221 | with a single match, from `i` to `e`, the result is `s[..i] + " " + v + s[e..]` |
| Address.AbbreviateWith | utils.py:220-221 | the loop as a fold over the table, one substitution per entry in order (no contract; see `AbbreviateWithoutKeys`, `AbbreviateWithOnly`) |
| Address.Abbreviate | utils.py:220-221 | the loop over the province and territory table (no contract; see `AbbreviateOne`) |
| Address.AbbreviateWithoutKeys | utils.py:220-221 | a string in which no table key occurs passes through the whole loop unchanged |
| Address.AbbreviateWithOnly | utils.py:220-221 | when no key before an entry occurs, and no key after it occurs in what its substitution leaves, the loop's result is that one substitution |
| Address.KeysCannotStraddle | utils.py:164-180 | no table name has a separator as its second or third character, and two places after each of its spaces comes a character that is not a capital |
| Address.TailStartsWithSep | utils.py:221 | what follows a province match starts with a separator, or the string ends there |
| Address.NoKeyAcrossReplacement | utils.py:221 | replacing a match by a space and two capitals, before a separator or the end, creates no occurrence of such a name |
| Address.NoKeyCopied | utils.py:221 | an occurrence in the text the replacement keeps would already be one in the original |
| Address.NoKeyStraddling | utils.py:221 | no such name can occur across the inserted space and abbreviation |
| Address.AbbreviateOne | utils.py:220-221 | when exactly one name of the table occurs and the pattern matches it once, from `i` to `e`, the whole loop gives `s[..i] + " " + v + s[e..]`: no later entry finds a key in the abbreviation |
| Address.PostalAfter | utils.py:222 | a position it returns is where a postal code ending the string starts, after the optional country and separators |
| Address.Replacement | utils.py:222 | the replacement is ` XX  A1A 1A1`, built from the symbol after the separators and the two halves of the postal code found after it |
| Address.FirstFinal | utils.py:222 | the position found is a match |
| Address.FirstFinalLeftmost | utils.py:222 | no match comes before the position found, and when none is found there is no match |
| Address.Final | utils.py:222 | with no match, the string is unchanged; otherwise the leftmost match and the rest of the string become the formatted tail |
| Address.FinalAtFormatted | utils.py:222 | a formatted tail matches and is replaced by itself |
| Address.NoFinalBefore | utils.py:222 | after the replacement, nothing before the tail matches |
| Address.FinalIdempotent | utils.py:222 | reformatting the last line twice is reformatting it once |
| Address.CleanAddress | utils.py:212-222 | `clean_address` as the three steps after `clean_string` (no contract; see the lemmas of each step) |
| Address.CleanAddressWithoutProvince | utils.py:212-222 | an address naming no province or territory is only sanitized, corrected and reformatted |
| Contacts.TablesShareKeys | utils.py:17-71 | the type table and the note table have the same keys |
| Contacts.TypeValuesAreLower | utils.py:17-43 | every type in the table is already lower-case |
| Contacts.CleanIfAny | utils.py:110-113 | skipping the empty string changes nothing: the result is the cleaned string |
| Contacts.DetailType | utils.py:110-119 | the stored type has no capital; a known cleaned label gives its table entry, and an unknown one is kept and lower-cased |
| Contacts.DetailNote | utils.py:112-117 | a known cleaned note gives its table entry (`None` for `Email`); an unknown note is kept, cleaned |
| Contacts.MakeContactDetail | utils.py:109-128 | the entry as the three parts it is built from, the closed form `People.NewContactDetail` is proved equal to; what the parts hold is stated by `DetailType`, `DetailNote`, `PhoneDetailValue` and `PlainDetailValueIsClean` |
| Contacts.KnownLabel | utils.py:114-117 | a label that cleans to a table key is classified by both tables' entries for that key |
| Contacts.DetailTypeSeesCleaned | utils.py:110-117 | classification depends only on the cleaned label and note |
| Contacts.EmptyTypeIsKept | utils.py:110-119 | an empty type raises nothing and is stored empty |
| Contacts.EmptyTypeIsPlain | utils.py:121-126 | the value of a detail with an empty type is only cleaned |
| Contacts.PlainValue | utils.py:121-126 | a type that is neither a telephone type nor the address gets the cleaned value |
| Contacts.DetailValue | utils.py:121-126 | the value routed by the type (no contract; see the three lemmas around it) |
| Contacts.PhoneDetailValue | utils.py:121-122 | for a telephone type, a recognized cleaned value is stored in the canonical form, and any other value is stored as cleaned |
| Contacts.PlainDetailValueIsClean | utils.py:125-126 | any other value is stored as a clean string |
| Contacts.LinkUrl | utils.py:101-105 | `www.` URLs get `http://`, a bare `@handle` becomes a Twitter URL, and anything else is kept |
| Contacts.LinkUrlIdempotent | utils.py:101-105 | coercing a stored URL again leaves it as it is |
| Contacts.Stored | utils.py:93-99 | a gender of `M` or `F` is stored as `male` or `female`; any other value or attribute is stored as given |
| Contacts.StoredGenderIsSpelledOut | utils.py:93-99 | a stored gender is never `M` or `F` |
| Contacts.StoredIdempotent | utils.py:93-99 | storing a stored value again stores the same value |
| People.CleanedAttributes | utils.py:89-91 | every keyword argument, and no other key, is stored |
| People.CleanedAttributesStored | utils.py:89-99 | each attribute is its cleaned value, with `M`/`F` spelled out for the gender; no stored gender is a single letter |
| People.LowerTypesAppend | utils.py:119-128 | appending an entry with a lower-case type keeps every type lower-case |
| People.CanadianPerson.constructor | utils.py:87-91 | the name is cleaned by `clean_name`, the post by `clean_string`, each keyword argument is stored cleaned, there are no links or contact details, and the invariant holds |
| People.CanadianPerson.SetCleaned | utils.py:89-91 | the attributes become the cleaned keyword arguments; nothing else changes, and the invariant is kept |
| People.CanadianPerson.SetAll | utils.py:89-91 | each key is set through `__setattr__`; nothing else changes |
| People.CanadianPerson.SetAttribute | utils.py:93-99 | exactly one attribute changes, to the stored form of the value; the invariant is kept |
| People.CanadianPerson.AddLink | utils.py:101-107 | exactly one link with the coerced URL is appended; earlier links and all other fields are unchanged |
| People.CanadianPerson.AddContactDetail | utils.py:109-128 | exactly one classified entry is appended; earlier entries and all other fields are unchanged, and every type stays lower-case |
| People.NewContactDetail | utils.py:109-128 | the imperative steps build the entry `MakeContactDetail` describes |
| People.StoredType | utils.py:110-119 | the imperative type steps give `DetailType` |
| People.StoredNote | utils.py:112-117 | the imperative note steps give `DetailNote` |
| People.AggregationPerson.constructor | utils.py:136-141 | the name and post are cleaned, and each keyword argument is stored cleaned with the gender spelled out |
| People.AggregationPerson.SetCleaned | utils.py:139-141 | the attributes become the cleaned keyword arguments; name and post are unchanged |
| People.AggregationPerson.SetAll | utils.py:139-141 | each key is set through `__setattr__`; name and post are unchanged |
| People.AggregationPerson.SetAttribute | utils.py:143-149 | exactly one attribute changes, to the stored form of the value |

## Left out

- `lxmlize` and `csv_reader` (utils.py:225-257) perform HTTP and FTP I/O and HTML parsing, so they are left out.
- `CanadianJurisdiction` (utils.py:74-82) imports modules dynamically and builds a pupa `Organization`, so it is left out.
- The pupa `Person` base class is not part of this model. The model assumes it stores each keyword argument as an attribute through `__setattr__`. Its other fields are not modelled.
- Keyword arguments are strings, because the `isinstance(v, string_types)` test is not modelled. A non-string argument is never re-set.
- `People.CanadianPerson.SetCleaned`: computes every cleaned value first and then sets each key through `__setattr__`. The source cleans each value inside its loop; since `clean_string` is pure, the stored attributes are the same.
- The order in which the constructors visit keyword arguments is not modelled. Each key is set exactly once, so the order does not change the result.
- Python's `\w`, `\b` and `str.lower` cover all of Unicode. The model's word characters are the ASCII letters, digits, `_` and the Latin-1 letters, and its `lower` handles the ASCII and Latin-1 capitals. `\d` is the ASCII digits. `\s`, `str.isspace` and `str.strip` are exact.
- `re.IGNORECASE` is modelled for the extension keywords only (ASCII capitals and the long s), which is all the pattern needs.
- `Address.ProvinceMatch`: takes the longest run of separators before the key. The backtracking matcher does the same for every key of the table, since each starts with a capital (`AbbreviationsShape`); for a key that started with a separator it could differ.
- `clean_address` has no end-to-end example proved on a literal address. The lemmas above state each step's effect. The province loop is characterised when one name of the table occurs and the pattern matches it once (`AbbreviateOne`). Several matches of one key, or several names in one address, are not characterised.
- `clean_address`: its non-idempotence is stated above but not proved.
