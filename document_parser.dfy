/** `parse_document`: the text goes to the parser its document-type tag
    names (ocr/document_parser.py). */
module DocumentParser {
  import opened Text
  import DebitParse
  import AccountEntries
  import RenewalEntries
  import RenewalParse
  import RenewalText

  /** The record of whichever parser ran. */
  datatype Document =
    | DebitNote(debit: DebitParse.DebitNoteRecord)
    | AccountStatement(statement: AccountEntries.Statement)
    | RenewalNotice(renewal: RenewalParse.RenewalNoticeRecord)

  /** The tags the dispatcher knows, compared exactly. */
  const DocumentTypes: set<string> := {"debit_note", "account_statement", "renewal_notice"}

  /** The message of the `ValueError` raised for any other tag. */
  function UnsupportedMessage(docType: string): string
  {
    "Unsupported document type: " + docType
  }

  /** What `parse_document` gives: the record of the parser the tag names,
      called without a name, the renewal parser's error passed on, and an
      error for every other tag. */
  predicate DocumentFrom(rawText: string, docType: string, r: Result<Document>)
  {
    if docType == "debit_note" then
      r.Ok? && r.value.DebitNote? && DebitParse.DebitNoteFrom(rawText, "", r.value.debit)
    else if docType == "account_statement" then
      r.Ok? && r.value.AccountStatement? && AccountEntries.StatementFrom(rawText, r.value.statement)
    else if docType == "renewal_notice" then
      match r
      case Ok(d) => d.RenewalNotice? && RenewalParse.RenewalNoticeFrom(rawText, "", Ok(d.renewal))
      case Err(m) => RenewalParse.RenewalNoticeFrom(rawText, "", Err(m))
    else
      r == Err(UnsupportedMessage(docType))
  }

  /** `parse_document`. */
  method ParseDocument(rawText: string, docType: string) returns (r: Result<Document>)
    ensures DocumentFrom(rawText, docType, r)
    ensures r.Err? ==> r.msg == UnsupportedMessage(docType) || r.msg == RenewalEntries.FloatError
    ensures r.Ok? && r.value.RenewalNotice? ==> r.value.renewal.uploadedBy == ""
  {
    if docType == "debit_note" {
      var rec := DebitParse.ParseDebitNoteText(rawText, "");
      return Ok(DebitNote(rec));
    }
    if docType == "account_statement" {
      var st := AccountEntries.ParseAccountStatementText(rawText, "");
      return Ok(AccountStatement(st));
    }
    if docType == "renewal_notice" {
      var rec := RenewalParse.ParseRenewalNoticeText(rawText, "");
      if rec.Err? {
        return Err(rec.msg);
      }
      return Ok(RenewalNotice(rec.value));
    }
    r := Err(UnsupportedMessage(docType));
  }

  /** The renewal parser fails only with the message of `float("")`. */
  lemma RenewalErrorMessage(rawText: string, m: string)
    requires RenewalParse.RenewalNoticeFrom(rawText, "", Err(m))
    ensures m == RenewalEntries.FloatError
  {
    var text := RenewalText.NormalizeOcrText(rawText);
    var lines := RenewalEntries.BlockLines(text).value;
    RenewalEntries.AmountsOfErr(RenewalEntries.AmountLines(lines));
  }

  /** The unsupported-type error is raised exactly for a tag outside the
      three, matched with case and all: "Debit_Note" and "" are refused. */
  lemma UnsupportedExactly(rawText: string, docType: string, r: Result<Document>)
    requires DocumentFrom(rawText, docType, r)
    ensures docType !in DocumentTypes <==> r == Err(UnsupportedMessage(docType))
  {
    if docType == "renewal_notice" && r.Err? {
      RenewalErrorMessage(rawText, r.msg);
      assert r.msg[0] != UnsupportedMessage(docType)[0];
    }
  }
}
