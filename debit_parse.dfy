/** `parse_debit_note_text`: the debit-note record assembled from the
    normalised text (ocr/debit_note_parser.py). */
module DebitParse {
  import opened Text
  import opened DebitAccount
  import opened DebitNote
  import opened DebitFields
  import opened DebitFinancials

  /** The fields of a parsed debit note. */
  datatype DebitNoteRecord = DebitNoteRecord(
    accountNumber: string, policyNumber: string, endorsementNumber: string,
    insuredOrAgent: string, issueDate: string, insuranceClass: string,
    financials: seq<FinancialRow>)

  /** What `parse_debit_note_text` gives for a text. The account number
      and the endorsement number are cleaned a second time after
      extraction, and the class gets three more code fixes. Re-cleaning
      leaves the account number as it is; the endorsement number can still
      change (see `CleanEndorsementTwice`); of the class fixes only the
      lower-case one can fire. The issue date is returned as captured. */
  predicate DebitNoteFrom(rawText: string, insuredOrAgent: string, rec: DebitNoteRecord)
  {
    var text := ApplyRules(rawText, DebitNoteReplacements);
    && rec.accountNumber == ExtractAccountNumberDn(text)
    && rec.policyNumber == ExtractPolicyNumber(text)
    && rec.endorsementNumber == CleanEndorsement(ExtractEndorsementNumber(text))
    && rec.insuredOrAgent == (if ExtractInsured(text) != "" then ExtractInsured(text) else insuredOrAgent)
    && rec.issueDate == ExtractDebitIssueDate(text)
    && rec.insuranceClass == Replace(ExtractInsuranceClass(text), "0o3", "003")
    && FinancialsFor(text, rec.financials)
  }

  /** `parse_debit_note_text`. */
  method ParseDebitNoteText(rawText: string, insuredOrAgent: string) returns (rec: DebitNoteRecord)
    ensures DebitNoteFrom(rawText, insuredOrAgent, rec)
    ensures NoDoubleHyphen(rec.endorsementNumber)
    ensures forall k :: 0 <= k < |rec.endorsementNumber| ==> IsCleanEndorsementChar(rec.endorsementNumber[k])
  {
    var text := NormalizeText(rawText);
    var insured := ExtractInsured(text);
    if insured == "" {
      insured := insuredOrAgent;
    }
    var financials := ExtractManagerFinancials(text);
    var account := CleanAccountNumber(ExtractAccountNumberDn(text));
    ExtractedAccountIsClean(text);
    var cls := FixClassCode(ExtractInsuranceClass(text));
    ClassFixOnlyLowerO(text);
    var rawEndorsement := ExtractEndorsementNumber(text);
    var endorsement := CleanEndorsement(rawEndorsement);
    CleanEndorsementNoDoubleHyphen(rawEndorsement);
    CleanEndorsementChars(rawEndorsement);
    rec := DebitNoteRecord(account, ExtractPolicyNumber(text), endorsement, insured,
                           ExtractDebitIssueDate(text), cls, financials);
  }
}
