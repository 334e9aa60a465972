/** `parse_renewal_notice_text`: the renewal-notice record assembled from
    the normalised text (ocr/renewal_notice_parser.py). */
module RenewalParse {
  import opened Text
  import opened RenewalText
  import opened RenewalFields
  import opened RenewalEntries

  /** The fields of a parsed renewal notice. */
  datatype RenewalNoticeRecord = RenewalNoticeRecord(
    issueDate: string, insured: string, insuranceClass: string,
    policyNumber: string, expiryDate: string, acCode: string,
    renewalEntries: seq<RenewalEntry>, totalEarning: real,
    renewalPremium: real, uploadedBy: string)

  /** What `parse_renewal_notice_text` gives for a text: every field is read
      from the normalised text, the name passed in is recorded as the
      uploader, and the only error is the one the entries table raises. */
  predicate RenewalNoticeFrom(rawText: string, insuredOrAgent: string, r: Result<RenewalNoticeRecord>)
  {
    var text := NormalizeOcrText(rawText);
    match r
    case Err(m) => EntriesOutcome(text, Err(m))
    case Ok(rec) =>
      EntriesOutcome(text, Ok(rec.renewalEntries))
      && rec.issueDate == ExtractDateAfter("ISSUE DATE", text)
      && rec.expiryDate == ExtractDateAfter("EXPIRY DATE", text)
      && rec.insured == ExtractInsuredName(text)
      && rec.insuranceClass == ExtractInsuranceClassR(text)
      && rec.policyNumber == ExtractPolicyNumberR(text)
      && rec.acCode == ExtractAcCode(text)
      && rec.totalEarning == ExtractTotalEarning(text)
      && rec.renewalPremium == ExtractRenewalPremium(text)
      && rec.uploadedBy == insuredOrAgent
  }

  /** `parse_renewal_notice_text`. */
  method ParseRenewalNoticeText(rawText: string, insuredOrAgent: string) returns (r: Result<RenewalNoticeRecord>)
    ensures RenewalNoticeFrom(rawText, insuredOrAgent, r)
    ensures r.Err? ==> r.msg == FloatError
    ensures r.Ok? ==>
      && (r.value.issueDate == "" || IsSlashDate(r.value.issueDate))
      && (r.value.expiryDate == "" || IsSlashDate(r.value.expiryDate))
      && r.value.totalEarning >= 0.0 && r.value.renewalPremium >= 0.0
  {
    var text := NormalizeOcrText(rawText);
    var issueDate := ExtractDateAfter("ISSUE DATE", text);
    var expiryDate := ExtractDateAfter("EXPIRY DATE", text);
    var insured := ExtractInsuredName(text);
    var insuranceClass := ExtractInsuranceClassR(text);
    var policyNumber := ExtractPolicyNumberR(text);
    var acCode := ExtractAcCode(text);
    var entries := ExtractRenewalEntries(text);
    if entries.Err? {
      return Err(entries.msg);
    }
    var totalEarning := ExtractTotalEarning(text);
    var renewalPremium := ExtractRenewalPremium(text);
    r := Ok(RenewalNoticeRecord(issueDate, insured, insuranceClass, policyNumber, expiryDate,
                                acCode, entries.value, totalEarning, renewalPremium, insuredOrAgent));
  }

  /** The description leaves nothing open: at most one outcome fits a text. */
  lemma RenewalNoticeUnique(rawText: string, insuredOrAgent: string, r1: Result<RenewalNoticeRecord>, r2: Result<RenewalNoticeRecord>)
    requires RenewalNoticeFrom(rawText, insuredOrAgent, r1) && RenewalNoticeFrom(rawText, insuredOrAgent, r2)
    ensures r1 == r2
  {
    var text := NormalizeOcrText(rawText);
    match BlockLines(text)
    case None =>
    case Some(lines) =>
      if r1.Ok? && r2.Ok? {
        match AmountsOf(AmountLines(lines))
        case Err(m) =>
        case Ok(amounts) =>
          PairedWithUnique(r1.value.renewalEntries, r2.value.renewalEntries, Labels(lines), amounts);
      }
  }

  /** Parsing a text that is already normalised gives the same record as
      parsing the raw text it came from. */
  lemma ParseNormalizedAgain(rawText: string, insuredOrAgent: string, r: Result<RenewalNoticeRecord>)
    requires RenewalNoticeFrom(rawText, insuredOrAgent, r)
    ensures RenewalNoticeFrom(NormalizeOcrText(rawText), insuredOrAgent, r)
  {
    NormalizeIdempotent(rawText);
  }
}
