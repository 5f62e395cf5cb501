/**
 * The report history of pages/index.js: the React state `pastReports`
 * (line 10), its durable copy in the browser storage slot "pastReports",
 * and the three steps that change them: the load effect (lines 12-15),
 * `handleUpload` (lines 38-60) and `clearPastReports` (lines 24-27).
 *
 * The stored JSON text is abstracted to the list it encodes: the page only
 * ever stores `JSON.stringify` of a list of reports and parses it back, so
 * the slot holds either nothing or a list of reports.
 */
module History {
  import opened Wrappers
  import opened Extractor

  /** `{ fileName, extractedValues }`, built once per upload and never changed. */
  datatype Report = Report(fileName: string, extractedValues: Fields)

  /** The browser storage, reduced to its "pastReports" slot; it outlives every page. */
  class Storage {
    var pastReports: Option<seq<Report>>

    constructor (saved: Option<seq<Report>>)
      ensures pastReports == saved
    {
      pastReports := saved;
    }
  }

  /** What the request of lines 45-50 gives back. */
  datatype Reply =
    | Rejected                   // `fetch` or `response.json()` rejects: the handler stops before line 51
    | Body(text: Option<string>) // the parsed reply; its `text` member is absent in the error replies

  /** How one call of `handleUpload` ends. */
  datatype UploadOutcome =
    | NoFileSelected          // line 39: an alert, nothing else
    | RequestFailed           // lines 45-50: the awaited promise rejects
    | ReplyWithoutText        // line 54: `extractKeyValues(undefined)` throws before line 56
    | Appended(report: Report)

  /** One page instance: its React state over the shared storage. */
  class Page {
    var pastReports: seq<Report>
    var extractedText: string
    const storage: Storage

    /** The slot holds exactly the history, or it is absent and the history is empty. */
    ghost predicate Synced()
      reads this, storage
    {
      storage.pastReports == Some(pastReports) || (storage.pastReports.None? && pastReports == [])
    }

    /** A freshly mounted page: `useState("")` and `useState([])` (lines 8, 10). */
    constructor (storage: Storage)
      ensures this.storage == storage
      ensures pastReports == [] && extractedText == ""
    {
      this.storage := storage;
      pastReports := [];
      extractedText := "";
    }

    /** The mount effect (lines 12-15): the stored list, or `[]` when the slot is absent. */
    method Load()
      modifies this
      ensures pastReports == old(storage.pastReports).GetOr([])
      ensures extractedText == old(extractedText)
      ensures Synced()
    {
      pastReports := storage.pastReports.GetOr([]);
    }

    /** `clearPastReports` (lines 24-27): empty history, slot removed. */
    method Clear()
      modifies this, storage
      ensures pastReports == [] && storage.pastReports == None
      ensures extractedText == old(extractedText)
      ensures Synced()
    {
      pastReports := [];
      storage.pastReports := None;
    }

    /**
     * `handleUpload` (lines 38-60). `selectedFile` is the chosen file's name,
     * if a file is chosen; `reply` is how the request ends. On success the
     * new report goes to the end, every earlier report stays as it was, and
     * the slot is overwritten with the whole new history.
     */
    method Upload(selectedFile: Option<string>, reply: Reply) returns (outcome: UploadOutcome)
      modifies this, storage
      ensures selectedFile.None? ==>
        outcome == NoFileSelected && pastReports == old(pastReports)
        && storage.pastReports == old(storage.pastReports) && extractedText == old(extractedText)
      ensures selectedFile.Some? && reply.Rejected? ==>
        outcome == RequestFailed && pastReports == old(pastReports)
        && storage.pastReports == old(storage.pastReports) && extractedText == old(extractedText)
      ensures selectedFile.Some? && reply == Body(None) ==>
        outcome == ReplyWithoutText && pastReports == old(pastReports)
        && storage.pastReports == old(storage.pastReports) && extractedText == ""
      ensures selectedFile.Some? && reply.Body? && reply.text.Some? ==>
        outcome == Appended(Report(selectedFile.value, ExtractKeyValues(reply.text.value)))
        && pastReports == old(pastReports) + [outcome.report]
        && storage.pastReports == Some(pastReports)
        && extractedText == reply.text.value
      ensures old(Synced()) ==> Synced()
    {
      if selectedFile.None? {
        return NoFileSelected;
      }
      if reply.Rejected? {
        return RequestFailed;
      }
      match reply.text
      case None =>
        // `setExtractedText(undefined)`; the empty text is falsy in the same way.
        extractedText := "";
        return ReplyWithoutText;
      case Some(text) =>
        extractedText := text;
        var report := Report(selectedFile.value, ExtractKeyValues(text));
        pastReports := pastReports + [report];
        storage.pastReports := Some(pastReports);
        return Appended(report);
    }
  }

  /** A first visit, with nothing stored, shows an empty history. */
  method FirstVisit() returns (page: Page)
    ensures fresh(page) && page.pastReports == [] && page.storage.pastReports == None
  {
    var storage := new Storage(None);
    page := new Page(storage);
    page.Load();
  }

  /** After an upload, reloading the page gives back the same history. */
  method ReloadAfterUpload(page: Page, fileName: string, text: string) returns (reloaded: Page)
    modifies page, page.storage
    ensures fresh(reloaded) && reloaded.storage == page.storage
    ensures page.pastReports == old(page.pastReports) + [Report(fileName, ExtractKeyValues(text))]
    ensures reloaded.pastReports == page.pastReports
  {
    var outcome := page.Upload(Some(fileName), Body(Some(text)));
    reloaded := new Page(page.storage);
    reloaded.Load();
  }

  /** After a clear, reloading gives an empty history and an upload starts over at length one. */
  method UploadAfterClear(page: Page, fileName: string, text: string) returns (reloaded: Page)
    modifies page, page.storage
    ensures fresh(reloaded) && reloaded.storage == page.storage
    ensures reloaded.pastReports == []
    ensures page.pastReports == [Report(fileName, ExtractKeyValues(text))]
    ensures page.storage.pastReports == Some(page.pastReports)
  {
    page.Clear();
    reloaded := new Page(page.storage);
    reloaded.Load();
    var outcome := page.Upload(Some(fileName), Body(Some(text)));
  }
}
