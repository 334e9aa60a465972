# OCR document parsers, modelled in Dafny

This project models the text-to-record core of an insurance back office. The
core takes the plain text an OCR engine produced for a scanned document and
turns it into a structured record. There are three kinds of document:

* **Debit notes** (`ocr/debit_note_parser.py`). The text is normalised with a
  fixed replacement table. Then the parser extracts the account number and
  cleans it into `XXXXXXXX (T01)` form, the policy number, the endorsement
  number (cleaned into `MON-NNN` form), the insured or agent, the issue date
  and the insurance class. It also reads the manager's financial figures:
  the last five values above 50, one record per copy (manager, agent,
  account, file) named in the text.
* **Account statements** (`ocr/account_statement_parser.py`). The text is
  corrected for OCR misreads. Then the parser extracts the issue date and the
  premium due date (both turned into ISO `YYYY-MM-DD`), the address and the
  account number. It reads the entries from two sources: the
  effective-date / debit-note / premium columns, and the `policy (nature)`
  pairs of the premium block. It aligns the two by index, adds up the total
  premium due, and raises a warning when an entry has no policy number.
* **Renewal notices** (`ocr/renewal_notice_parser.py`). The text is
  normalised: blank lines go, and runs of spaces and tabs collapse to one
  space. Then the parser extracts the issue date, the expiry date, the
  insured name, the class, the policy number, the A/C code, the total
  earning and the renewal premium. It reads the employee table as a list of
  labelled amounts.

`ocr/document_parser.py` sends the text to one of the three parsers,
according to a document-type tag. Any other tag raises an error.

Every regular expression is written out as a hand-coded scanner. Its
contract says what the match is: the position of the first match, the
character classes of the groups, and what happens when the label is missing.
Functions that are loops in the source (`apply_ocr_corrections`,
`extract_address`, `extract_policy_nature_pairs`, `extract_date_debit_premium`,
`parse_entries`, `split_by_copy`, `detect_copy_types`,
`extract_manager_financials`, `fix_ocr_numbers`, `extract_renewal_entries`)
are methods with loop invariants. Each is proved equal to a specification
function, and the properties are proved about that function. Each top-level
parser is a method. It is proved to satisfy a predicate (`StatementFrom`,
`DebitNoteFrom`, `RenewalNoticeFrom`, `DocumentFrom`) that states field by
field where the record comes from.

Modules: `Text` holds the string helpers: case-insensitive matching, search,
`Replace` (Python's `str.replace`), strip, split and join. `Numbers` holds
the decimal parsing and `round(x, 2)`. `Dates` holds the month names and
ISO dates. `AccountStatement` and `AccountEntries` hold the account-statement
parser. `DebitNote`, `DebitAccount`, `DebitFields`, `DebitFinancials` and
`DebitParse` hold the debit-note parser. `RenewalText`, `RenewalFields`,
`RenewalEntries` and `RenewalParse` hold the renewal-notice parser.
`DocumentParser` holds the dispatcher.

The model follows the code. Some behaviours worth noting:

* Only the account statement turns dates into ISO form. The debit-note issue
  date is returned exactly as captured (`12 March 2024`). The renewal dates
  stay `dd/mm/yyyy`.
* The renewal parser is not total. `extract_renewal_entries` calls
  `float("")` on a number token that holds only commas, and so raises
  `ValueError`. The model returns that error, and `parse_document` passes it
  on.
* The renewal entry count is the label count. Surplus amounts are dropped,
  and a label without an amount is paired with 0.0.
* `clean_money` drops the decimal point: `"1234.50"` reads as `123450.0`
  (`RenewalText.CleanMoneyDropsPoint`).
* `clean_account_number` appends ` (T01)` whenever the text holds a run of 6
  to 10 upper-case letters or digits. It does not look at any suffix the
  input already had.
* `normalize_text` is not idempotent. Its `T01)` rule turns an already
  bracketed `(T01)` into `((T01)`, and `To1` becomes `((T01)` in one pass.
  The account cleaner collapses the extra brackets later.
* `clean_endorsement_number` is not idempotent: `TTNO` becomes `TNOV`, and
  `TNOV` becomes `NOV`. The parser does apply it twice to the same capture.
* Of the three class-code fixes in `parse_debit_note_text`, only the
  lower-case one (`0o3`) can ever fire. By the time they run, the class
  holds no capital `O` in its code and no `0` in its words.
* The financial figures need five tokens above 50, and a token can span
  two numbers. Under the GROSS PREMIUM header, `1000 200 60 300 120` holds
  five amounts above 50 but gives no record. `200 60` is read as one token,
  and its space is deleted, so it reads 20060. Only four values qualify
  (`DebitFinancials.ExampleNoFinancials`).
* The blocks of `split_by_copy` are joins of non-empty groups of lines. A
  block string can still be empty, when its only line is blank.

## Model

| member | source | states |
|---|---|---|
| AccountStatement.ApplyOcrCorrections | ocr/account_statement_parser.py:21-27 | the loop applies the text table, then the numeric table only when asked, each pair replacing every occurrence in table order |
| AccountStatement.CorrectionsNoTrigger | ocr/account_statement_parser.py:8-27 | a text that contains none of the table's patterns comes back unchanged |
| AccountStatement.SingleCharCorrected | ocr/account_statement_parser.py:8-27 | a single character is left alone by the text table; the numeric table maps it to its digit |
| AccountStatement.CorrectionsFirstPass | ocr/account_statement_parser.py:8-27 | one pass is not a fixpoint: "ii1" corrects to "i11" |
| AccountStatement.CorrectionsSecondPass | ocr/account_statement_parser.py:8-27 | a second pass changes "i11" again, to "111" |
| AccountStatement.LongDateToIso | ocr/account_statement_parser.py:37-40 | a long date becomes a valid ISO date, or "" when it does not parse |
| AccountStatement.ExtractIssueDate | ocr/account_statement_parser.py:32-40 | the result is "" or a valid ISO date |
| AccountStatement.ExtractPremiumDueDate | ocr/account_statement_parser.py:42-58 | the result is "" or a valid ISO date |
| AccountStatement.PremiumDueDateFallback | ocr/account_statement_parser.py:42-58 | with no PREMIUM DUE DATE line below the first line, the due date is the issue date |
| AccountStatement.PremiumDueDateAbove | ocr/account_statement_parser.py:45-55 | the first PREMIUM DUE DATE line takes the long date on the line above it, in ISO form |
| AccountStatement.ExtractAddress | ocr/account_statement_parser.py:63-80 | the address is the space-join of the lines captured after the first date line and before EFFECTIVE DATE |
| AccountStatement.AddressLinesShape | ocr/account_statement_parser.py:63-80 | every captured address line is stripped, non-empty, does not open with a long date and does not contain EFFECTIVE DATE |
| AccountStatement.NoDateNoAddress | ocr/account_statement_parser.py:63-80 | with no line starting with a long date, the address is empty |
| AccountStatement.AccountNumberCapture | ocr/account_statement_parser.py:85-88 | a capture is a non-empty run of letters and digits |
| AccountStatement.ExtractAccountNumber | ocr/account_statement_parser.py:85-88 | the result is "N/A" exactly when the label does not match, and otherwise a run of letters and digits |
| AccountStatement.CleanGlobalOcr | ocr/account_statement_parser.py:93-105 | the loop applies the global replacement table, and no Q is left |
| AccountStatement.GlobalCleanHasNoQ | ocr/account_statement_parser.py:93-105 | after the global replacements the text holds no Q |
| AccountStatement.CleanNumber | ocr/account_statement_parser.py:111-144 | every cleaned amount is non-negative |
| AccountStatement.CleanNumberNoise | ocr/account_statement_parser.py:127-144 | text with no digit and no Q, O or l reads 0.0 |
| AccountStatement.CleanNumberTwoPoints | ocr/account_statement_parser.py:138-144 | a number with two decimal points fails `float` and reads 0.0 |
| AccountStatement.CleanNumberSpacedShape | ocr/account_statement_parser.py:117-125 | "d ddd dd" reads as thousands plus cents |
| AccountStatement.CleanNumberSpaced | ocr/account_statement_parser.py:117-125 | "1 296 20" reads 1296.20 |
| AccountStatement.SpacedThousandsNeedsSpace | ocr/account_statement_parser.py:117-125 | the spaced-thousands form needs a space after the first digit |
| AccountStatement.CleanNumberCommas | ocr/account_statement_parser.py:132-144 | thousands commas are dropped: "a,b" reads as the number ab |
| AccountStatement.CleanNumberLetters | ocr/account_statement_parser.py:127-144 | a leading Q and a trailing O read as zeros: "Q t O" is ten times t |
| AccountEntries.ExtractPolicyNaturePairs | ocr/account_statement_parser.py:150-193 | the loop collects exactly the pairs the scanner finds, in order |
| AccountEntries.PairsCleaned | ocr/account_statement_parser.py:150-193 | every policy number is cleaned: no o, O, l, comma or space, and non-negative nature |
| AccountEntries.NoParenNoPairs | ocr/account_statement_parser.py:150-193 | a text with no closing bracket yields no pairs |
| AccountEntries.NatureValue | ocr/account_statement_parser.py:170-190 | the nature amount is non-negative |
| AccountEntries.DebitIsNotDate | ocr/account_statement_parser.py:242-282 | a debit-note line is never taken for a date line |
| AccountEntries.Attach | ocr/account_statement_parser.py:255-276 | after a date line, at most the next two lines are consumed, and the premium is non-negative |
| AccountEntries.AttachAt | ocr/account_statement_parser.py:255-276 | the method attaches the same debit note, premium and last line as the specification |
| AccountEntries.ExtractDateDebitPremium | ocr/account_statement_parser.py:242-282 | the loop produces the column entries of its specification function |
| AccountEntries.ColumnEntries | ocr/account_statement_parser.py:248-282 | the scan over the lines produces the column entries of its specification function |
| AccountEntries.AttachedAreNotDates | ocr/account_statement_parser.py:255-276 | the lines a date line consumes are never date lines |
| AccountEntries.OneEntryPerDateLine | ocr/account_statement_parser.py:242-282 | the entries' effective dates are exactly the date lines, in order |
| AccountEntries.EntryPremiumsNonNegative | ocr/account_statement_parser.py:242-282 | every column entry's premium is non-negative |
| AccountEntries.HeaderPremiumOf | ocr/account_statement_parser.py:198-217 | the header premium is non-negative |
| AccountEntries.HeaderPremium | ocr/account_statement_parser.py:198-217 | the method reads the header premium of its specification function |
| AccountEntries.FirstDateIsFirstEntry | ocr/account_statement_parser.py:242-282 | there are entries exactly when there is a date line, and the first entry's date is the first date line |
| AccountEntries.HeaderAt | ocr/account_statement_parser.py:219-240 | a header match starts at EFFECTIVE and captures a date line and a debit-note line |
| AccountEntries.FindHeaderNone | ocr/account_statement_parser.py:219-240 | no header is found exactly when no position matches |
| AccountEntries.HeaderEntries | ocr/account_statement_parser.py:219-240 | at most one header entry, with a date and a debit note |
| AccountEntries.NoKeywordNoHeader | ocr/account_statement_parser.py:219-240 | without EFFECTIVE there is no header entry |
| AccountEntries.FindTotal | ocr/account_statement_parser.py:293-302 | the first position where the TOTAL label matches, or none |
| AccountEntries.FindBigRow | ocr/account_statement_parser.py:293-302 | there is no premium block exactly when no position starts one |
| AccountEntries.NoTotalNoBigRow | ocr/account_statement_parser.py:293-302 | without the TOTAL label there is no premium block |
| AccountEntries.AlignByIndex | ocr/account_statement_parser.py:314-330 | entry i takes date, debit note and premium from column entry i, and policy and nature from pair i when there is one |
| AccountEntries.ParseEntries | ocr/account_statement_parser.py:288-332 | the entries are the column entries aligned with the pairs of the globally cleaned text |
| AccountEntries.EntryCount | ocr/account_statement_parser.py:306-312 | there is one entry per header entry plus one per date line |
| AccountEntries.StructuredPremiumsNonNegative | ocr/account_statement_parser.py:306-312 | every structured premium is non-negative |
| AccountEntries.AlignedPoliciesCleaned | ocr/account_statement_parser.py:314-330 | every policy number attached to an entry is a cleaned one |
| AccountEntries.NoTotalNoPolicies | ocr/account_statement_parser.py:293-330 | without the TOTAL label no entry has a policy or a nature |
| AccountEntries.SumPremiumsNonNegative | ocr/account_statement_parser.py:346-349 | the sum of non-negative premiums is non-negative |
| AccountEntries.Round2NonNegative | ocr/account_statement_parser.py:346-349 | rounding to cents keeps a non-negative total non-negative |
| AccountEntries.ParseAccountStatementText | ocr/account_statement_parser.py:337-366 | every field comes from the corrected text as the parser's description predicate states, and the total premium due is non-negative |
| AccountEntries.MoreEntriesThanPairsWarns | ocr/account_statement_parser.py:354-356 | with fewer policy pairs than entries, the missing-policy warning is raised |
| AccountEntries.ShortPairsMissPolicy | ocr/account_statement_parser.py:314-330 | an entry past the last pair has no policy |
| DebitNote.NormalizeText | ocr/debit_note_parser.py:11-40 | the loop applies the replacement table in order |
| DebitNote.NormalizeNoTrigger | ocr/debit_note_parser.py:11-40 | a text that contains none of the patterns is left unchanged |
| DebitNote.NormalizeTo1 | ocr/debit_note_parser.py:11-40 | "To1" becomes "((T01)" in one pass: the two suffix rules both fire |
| DebitNote.NormalizeAddsBracket | ocr/debit_note_parser.py:11-40 | an already bracketed "(T01)" gains one more opening bracket |
| DebitNote.LazyAccEnd | ocr/debit_note_parser.py:53-60 | the lazy account group ends where the POL / ENO / CLA lookahead holds, and holds only account characters |
| DebitNote.FindAccount | ocr/debit_note_parser.py:53-60 | a found account is a non-empty run of account characters |
| DebitNote.NoLabelNoAccount | ocr/debit_note_parser.py:53-60 | without ACC in the text nothing is found |
| DebitNote.ExtractAccountNumberDn | ocr/debit_note_parser.py:53-60 | the extracted account number holds no lower-case letter and no O, Q or S |
| DebitNote.ExtractedAccountIsClean | ocr/debit_note_parser.py:53-75 | cleaning the extracted account number a second time leaves it as it is |
| DebitNote.NoLabelNoAccountNumber | ocr/debit_note_parser.py:53-60 | without ACC in the text the account number is "" |
| DebitAccount.T01Match | ocr/debit_note_parser.py:71 | a match of the bracket pattern covers at least "(T01)" and takes all closing brackets |
| DebitAccount.SubT01Idempotent | ocr/debit_note_parser.py:71 | collapsing the bracket runs a second time changes nothing |
| DebitAccount.FindBaseNumber | ocr/debit_note_parser.py:74 | a base number is 6 to 10 upper-case letters or digits taken from the text |
| DebitAccount.FindBaseNumberNone | ocr/debit_note_parser.py:74 | the search fails exactly when no position opens a run of six or more `[A-Z0-9]` |
| DebitAccount.FindBaseNumberFirst | ocr/debit_note_parser.py:74 | a found base number is the run at the first position that opens six or more, cut at ten |
| DebitAccount.CleanAccountChars | ocr/debit_note_parser.py:62-75 | the cleaned number holds no lower-case letter and no O, Q or S |
| DebitAccount.CleanAccountSuffix | ocr/debit_note_parser.py:62-75 | when a base number is found the result is the first run of six or more letters and digits in the fixed text, cut at ten, followed by " (T01)" |
| DebitAccount.CleanAccountNoBase | ocr/debit_note_parser.py:62-75 | with no such run the fixed, bracket-normalised text is returned unchanged |
| DebitAccount.CleanPlainNumber | ocr/debit_note_parser.py:62-75 | a clean 6 to 10 character number gains the " (T01)" suffix |
| DebitAccount.SuffixedIsFixed | ocr/debit_note_parser.py:62-75 | a number already in "base (T01)" form is kept |
| DebitAccount.CleanAccountIdempotent | ocr/debit_note_parser.py:62-75 | cleaning twice gives what cleaning once gives |
| DebitFields.ExtractPolicyNumber | ocr/debit_note_parser.py:77-81 | the policy number is "" or at least ten letters, digits or hyphens |
| DebitFields.NoLabelNoPolicy | ocr/debit_note_parser.py:77-81 | without POLICY nothing is found |
| DebitFields.ExtractDebitIssueDate | ocr/debit_note_parser.py:253-255 | the issue date is "" or a day, a word and a four-digit year, kept as captured |
| DebitFields.NoLabelNoIssueDate | ocr/debit_note_parser.py:253-255 | without DATE nothing is found |
| DebitFields.FindEndorsement | ocr/debit_note_parser.py:83-90 | a found endorsement capture is non-empty and holds only capture characters |
| DebitFields.NoLabelNoEndorsement | ocr/debit_note_parser.py:83-90 | without EN nothing is found |
| DebitFields.MonthDash | ocr/debit_note_parser.py:109-111 | a result keeps the month, puts a hyphen after it, ends in a digit and holds no double hyphen |
| DebitFields.MonthDashDefined | ocr/debit_note_parser.py:109-111 | the month step applies exactly when the text opens with a month name, then a digit or a capital letter and a digit |
| DebitFields.MonthDashValue | ocr/debit_note_parser.py:109-111 | the result is the month, a hyphen, the optional letter and the longest run of digits after it, cut at four; the rest is dropped |
| DebitFields.CleanEndorsementChars | ocr/debit_note_parser.py:93-113 | the cleaned number holds no lower-case letter, space or underscore |
| DebitFields.CleanEndorsementNoDoubleHyphen | ocr/debit_note_parser.py:93-113 | the cleaned number never holds "--" |
| DebitFields.PlainLettersKept | ocr/debit_note_parser.py:93-113 | upper-case letters with no keyword start and no hyphen pass the first steps unchanged |
| DebitFields.CleanEndorsementTwice | ocr/debit_note_parser.py:93-113 | cleaning is not idempotent: "TTNO" cleans to "TNOV", which cleans again to "NOV" |
| DebitFields.ExtractEndorsementNumber | ocr/debit_note_parser.py:83-90 | the extracted number holds only cleaned characters |
| DebitFields.ExtractInsured | ocr/debit_note_parser.py:115-126 | the name is at most 40 letters and spaces, with no space at either end |
| DebitFields.InsuredHasNoStopWord | ocr/debit_note_parser.py:115-126 | the name holds no FLAT, ROOM or FLOOR word |
| DebitFields.ClassPartsShape | ocr/debit_note_parser.py:128-142 | the class code is 2 or 3 digits with O and Q fixed, and the words end in HELPER |
| DebitFields.FixClassWordsEnding | ocr/debit_note_parser.py:139-140 | the word fixes keep the HELPER ending |
| DebitFields.ClassFixOnlyLowerO | ocr/debit_note_parser.py:262-267 | of the three code fixes only the "0o3" one can change the class |
| DebitFinancials.HasGrossPremiumExists | ocr/debit_note_parser.py:149 | the header test holds exactly when GROSS PREMIUM matches at some position |
| DebitFinancials.ValidBlockHasGrossPremium | ocr/debit_note_parser.py:222-237 | a valid financial block always has the GROSS PREMIUM header |
| DebitFinancials.ValidBlockUpper | ocr/debit_note_parser.py:222-237 | upper-casing a block does not change whether it is valid |
| DebitFinancials.TokenAt | ocr/debit_note_parser.py:152 | a token is 2 to 4 digits, an optional separator and up to 2 digits, ending at a word boundary |
| DebitFinancials.Tokens | ocr/debit_note_parser.py:152 | every token found has the numeric shape |
| DebitFinancials.TokenValueParts | ocr/debit_note_parser.py:155-162 | a token reads as its digits, with a space dropped and a comma or point taken as decimal point |
| DebitFinancials.TokenValueDefined | ocr/debit_note_parser.py:155-162 | every token of the numeric shape converts |
| DebitFinancials.LargeValues | ocr/debit_note_parser.py:155-162 | only values above 50 are kept |
| DebitFinancials.LargeValuesAppend | ocr/debit_note_parser.py:155-162 | the values of two token lists are the values of each, in order |
| DebitFinancials.LargeValuesMember | ocr/debit_note_parser.py:155-162 | a value is kept exactly when it is above 50 and some token reads as it |
| DebitFinancials.SelectValues | ocr/debit_note_parser.py:153-162 | the loop keeps the values of its specification function |
| DebitFinancials.CopyTypes | ocr/debit_note_parser.py:190-203 | the copy types are among manager, agent, account and file |
| DebitFinancials.DetectCopyTypes | ocr/debit_note_parser.py:190-203 | the loop finds the copy types of its specification function |
| DebitFinancials.NoCopyWordNoTypes | ocr/debit_note_parser.py:190-203 | a text with no COPY word names no copy type |
| DebitFinancials.CopyTypesUpper | ocr/debit_note_parser.py:190-203 | the copy types do not depend on case |
| DebitFinancials.RowCategories | ocr/debit_note_parser.py:173-175 | there is always at least one category, and every category is one of the four copy names |
| DebitFinancials.CopyRecords | ocr/debit_note_parser.py:176-186 | one record per copy type, each with the same five figures |
| DebitFinancials.ExtractManagerFinancials | ocr/debit_note_parser.py:148-188 | no records without the header or with fewer than five values above 50; otherwise one record per copy with the last five values |
| DebitFinancials.ExampleNoFinancials | ocr/debit_note_parser.py:149-165 | "GROSS PREMIUM" over "1000 200 60 300 120" passes the header test, yet gives no records: "200 60" reads as one token, so only four values qualify |
| DebitFinancials.ExampleValues | ocr/debit_note_parser.py:152-162 | the example reads as the values 1000, 20060, 300 and 120, in that order |
| DebitFinancials.CopyGroups | ocr/debit_note_parser.py:205-219 | there are no more groups than lines, and there is a group exactly when there is a line |
| DebitFinancials.CopyGroupsShape | ocr/debit_note_parser.py:205-219 | the groups are non-empty, each group after the first starts at a COPY line and holds no other one, and together they are the lines in order |
| DebitFinancials.SplitByCopy | ocr/debit_note_parser.py:205-219 | the loop returns the newline-joins of the groups |
| DebitFinancials.SplitByCopyJoin | ocr/debit_note_parser.py:205-219 | joining the blocks back with newlines gives the text's lines joined with newlines |
| DebitParse.ParseDebitNoteText | ocr/debit_note_parser.py:244-273 | every field comes from the normalised text as the parser's description predicate states; the endorsement holds only cleaned characters and no "--" |
| RenewalText.NormalizeNormalized | ocr/renewal_notice_parser.py:8-18 | the normalised text has no blank line and no run of spaces |
| RenewalText.NormalizeIdempotent | ocr/renewal_notice_parser.py:8-18 | normalising twice gives what normalising once gives |
| RenewalText.NormalizeTidy | ocr/renewal_notice_parser.py:8-18 | the only whitespace left is single spaces and newlines, none at either end of the text and never two in a row |
| RenewalText.NormalizeKeepsWords | ocr/renewal_notice_parser.py:8-18 | normalising keeps the words of the text, in order |
| RenewalText.FixDigitChar | ocr/renewal_notice_parser.py:94-111 | a misread character becomes a digit, and every other character is kept |
| RenewalText.FixOcrNumbers | ocr/renewal_notice_parser.py:94-111 | the loop over the correction table equals the per-character fix |
| RenewalText.FixTableIsPerChar | ocr/renewal_notice_parser.py:94-111 | applying the table in order is the same as fixing each character on its own |
| RenewalText.FixDigitsClean | ocr/renewal_notice_parser.py:94-111 | the fix keeps the length, leaves no misread character, and keeps the other characters |
| RenewalText.FixDigitsIdempotent | ocr/renewal_notice_parser.py:94-111 | fixing twice gives what fixing once gives |
| RenewalText.CleanMoney | ocr/renewal_notice_parser.py:69-76 | every amount is non-negative |
| RenewalText.CleanMoneyDigits | ocr/renewal_notice_parser.py:69-76 | the amount is the number formed by all the digits of the text, or 0.0 when there are none |
| RenewalText.CleanMoneyDropsPoint | ocr/renewal_notice_parser.py:69-76 | a decimal point is dropped: "w.f" reads as the number wf |
| RenewalText.DigitRunsFlatten | ocr/renewal_notice_parser.py:73-76 | the runs of digits, joined, are the text's digits |
| RenewalText.KeepMoneyDigits | ocr/renewal_notice_parser.py:72 | the noise filter keeps every digit |
| RenewalFields.ExtractDateAfter | ocr/renewal_notice_parser.py:34-36 | the date is "" or a dd/mm/yyyy date |
| RenewalFields.DateWithoutLabel | ocr/renewal_notice_parser.py:34-36 | without the label the date is "" |
| RenewalFields.DateAtFirstLabel | ocr/renewal_notice_parser.py:34-36 | the date is the first one after the first occurrence of the label |
| RenewalFields.ExtractPolicyNumberR | ocr/renewal_notice_parser.py:39-43 | the policy number is "" or letters, digits and hyphens |
| RenewalFields.PolicyNumberRNonEmpty | ocr/renewal_notice_parser.py:39-43 | the policy number is non-empty exactly when the pattern matches |
| RenewalFields.NoLabelNoPolicyNo | ocr/renewal_notice_parser.py:39-43 | without POLICY nothing is found |
| RenewalFields.HyphenGivenBack | ocr/renewal_notice_parser.py:39-43 | when nothing follows a hyphen, the group backtracks to start at the hyphen |
| RenewalFields.ExtractAcCode | ocr/renewal_notice_parser.py:46-47 | the code is letters and digits, "" exactly when the pattern does not match |
| RenewalFields.ExtractInsuranceClassR | ocr/renewal_notice_parser.py:61-62 | the class is "" or starts with BUSINESS and ends with INSURANCE |
| RenewalFields.NoClassPhraseKept | ocr/renewal_notice_parser.py:50-58 | a name without the class phrase is kept as it is |
| RenewalFields.BeforeUnitWord | ocr/renewal_notice_parser.py:50-58 | the name is cut at the first unit word, and holds none before it |
| RenewalFields.ExtractInsuredName | ocr/renewal_notice_parser.py:50-58 | the name has no space at either end |
| RenewalFields.InsuredNameNeedsLabels | ocr/renewal_notice_parser.py:50-58 | a name is found only between an INSURED word and a later POLICY NO label |
| RenewalFields.TrimmedSlice | ocr/renewal_notice_parser.py:50-58 | the trimmed name is a contiguous slice of the captured text |
| RenewalFields.ExtractTotalEarning | ocr/renewal_notice_parser.py:79-83 | the total earning is non-negative |
| RenewalFields.TotalWithoutLabel | ocr/renewal_notice_parser.py:79-83 | without TOTAL the total earning is 0.0 |
| RenewalFields.TotalAtFirstLabel | ocr/renewal_notice_parser.py:79-83 | the line read is the one after the first TOTAL |
| RenewalFields.ExtractRenewalPremium | ocr/renewal_notice_parser.py:86-88 | the renewal premium is non-negative |
| RenewalFields.PremiumWithoutLabel | ocr/renewal_notice_parser.py:86-88 | without RENEWAL PREMIUM the premium is 0.0 |
| RenewalFields.PremiumAtFirstLabel | ocr/renewal_notice_parser.py:86-88 | the amount read is the one after the first label |
| RenewalEntries.FindBlock | ocr/renewal_notice_parser.py:119-123 | the block runs from the first EMPLOYEES that has a TOTAL after it up to the first such TOTAL |
| RenewalEntries.NoEmployeesNoBlock | ocr/renewal_notice_parser.py:119-123 | without EMPLOYEES there is no block |
| RenewalEntries.BlockAtFirstEmployees | ocr/renewal_notice_parser.py:119-123 | the block starts at the first EMPLOYEES, or there is none when no TOTAL follows it |
| RenewalEntries.BlockFirstLine | ocr/renewal_notice_parser.py:119-126 | the block's first line starts with EMPLOYEES |
| RenewalEntries.KeepLabelChars | ocr/renewal_notice_parser.py:129-135 | the filter keeps only label characters |
| RenewalEntries.KeepLabelCharsIdempotent | ocr/renewal_notice_parser.py:129-135 | filtering twice gives what filtering once gives |
| RenewalEntries.SplitAtCuts | ocr/renewal_notice_parser.py:129-135 | the first piece is a prefix, and every later piece starts with a digit |
| RenewalEntries.SplitAtCutsJoin | ocr/renewal_notice_parser.py:129-135 | joining the pieces with spaces gives the line back |
| RenewalEntries.Labels | ocr/renewal_notice_parser.py:129-135 | every label is non-empty and stripped |
| RenewalEntries.NumberTokensShape | ocr/renewal_notice_parser.py:139-158 | every number token has the digits-commas-point shape |
| RenewalEntries.NumberTokensDigits | ocr/renewal_notice_parser.py:139-158 | the tokens together hold exactly the digits of the line |
| RenewalEntries.TokenValueDefined | ocr/renewal_notice_parser.py:139-158 | a token converts exactly when it holds a digit |
| RenewalEntries.TokenValuesErr | ocr/renewal_notice_parser.py:139-158 | the conversion fails exactly when some token has no digit, and then with the message of `float("")` |
| RenewalEntries.LineAmountFacts | ocr/renewal_notice_parser.py:139-158 | an amount is non-negative, and a failure carries the `float("")` message |
| RenewalEntries.LineAmountIsMax | ocr/renewal_notice_parser.py:139-158 | a line's amount is the largest of its token values, or 0.0 when it has none |
| RenewalEntries.LineAmountFails | ocr/renewal_notice_parser.py:139-158 | a line fails exactly when one of its tokens holds no digit |
| RenewalEntries.AmountsOfOk | ocr/renewal_notice_parser.py:139-158 | on success there is one amount per line, each that line's amount |
| RenewalEntries.AmountsOfErr | ocr/renewal_notice_parser.py:139-158 | the amounts fail exactly when some line fails, with the `float("")` message |
| RenewalEntries.ExtractAmounts | ocr/renewal_notice_parser.py:139-158 | the loop computes the amounts of its specification function |
| RenewalEntries.PairEntries | ocr/renewal_notice_parser.py:161-164 | the loop pairs label i with amount i, or 0.0 when there is none |
| RenewalEntries.PairedWithUnique | ocr/renewal_notice_parser.py:161-164 | the pairing is determined by the labels and amounts |
| RenewalEntries.SurplusAmountsIgnored | ocr/renewal_notice_parser.py:161-164 | amounts beyond the labels do not change the entries |
| RenewalEntries.ExtractRenewalEntries | ocr/renewal_notice_parser.py:112-166 | the entries are those of its specification function; each has a non-empty label and a non-negative amount, and the only error is `float("")` |
| RenewalParse.ParseRenewalNoticeText | ocr/renewal_notice_parser.py:171-199 | every field comes from the normalised text; the dates are "" or dd/mm/yyyy, the amounts are non-negative, and the only error is `float("")` |
| RenewalParse.RenewalNoticeUnique | ocr/renewal_notice_parser.py:171-199 | at most one outcome fits a text |
| RenewalParse.ParseNormalizedAgain | ocr/renewal_notice_parser.py:171-199 | parsing the normalised text gives the same outcome as parsing the raw text |
| DocumentParser.ParseDocument | ocr/document_parser.py:5-12 | the tag selects the parser, which is called with no name; any other tag gives the unsupported-type error |
| DocumentParser.RenewalErrorMessage | ocr/document_parser.py:10-11 | the renewal branch can fail only with the `float("")` message |
| DocumentParser.UnsupportedExactly | ocr/document_parser.py:5-12 | the unsupported-type error is raised exactly for tags other than the three, compared case-sensitively |
| Dates.IsoRoundTrip | ocr/account_statement_parser.py:37-40 | a valid date formatted as ISO parses back to itself |
| Numbers.ParseDecimalDefined | ocr/account_statement_parser.py:141-144 | `float` succeeds exactly on digits with at most one decimal point and at least one digit |
| Numbers.Round2 | ocr/account_statement_parser.py:346-349 | the rounded value is a whole number of cents, within half a cent of the input |
| Text.JoinSplitOn | ocr/renewal_notice_parser.py:8-18 | splitting on a character and joining with it gives the text back |

## Left out

* The `print` calls of the parsers. They only write diagnostics.
* The OCR adapter (`ocr/ocr_utils.py`), the web app, the database layer and
  the test script. They are not part of this model.
* Unicode. The classes `\d`, `\s` and `\w` and upper-casing are modelled on
  ASCII. Python's Unicode digits, spaces, letters and special case mappings
  (such as `ß`) are not.
* `str.splitlines` is modelled as a split on `'\n'` only. The other line
  breaks Python recognises (`\r`, `\v`, `\f` and others) are not.
* Binary floating point. Amounts are exact reals, `round(x, 2)` is
  round-half-even on the exact value, and float overflow is not modelled.
* `datetime.strptime` is modelled with English month names only, as the C
  locale gives.
* Dates.FormatIso: always pads the year to four digits, as CPython's
  `strftime('%Y')` does on platforms that pad it. On glibc, older CPython
  releases print years 1 to 999 without padding (`999-01-01`), so
  AccountStatement.LongDateToIso differs from them for such years.
* `detect_copy_types` returns a Python set. The order of its iteration, and
  so the order of the financial records, is left open: the model states
  which records there are, not their order.
* The `insured_or_agent` argument of `parse_account_statement_text` is never
  used by the source, so the model ignores it.
* The second computation of the account-statement total (when the first
  total is 0.0) is a no-op, because every premium is a float. The model
  computes the total once.
* Regular-expression backtracking is analysed by hand for each pattern.
  Each scanner follows the one path on which the pattern can succeed.
* DebitNote.LazyAccEnd: does not state that the lazy group is the shortest
  one. It states only that the end passes the lookahead and that the group
  holds account characters. The proof that no earlier end passes the
  lookahead was too expensive for the solver.
