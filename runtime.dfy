/** The extension's message channel from a content script to the background script, and the download call. */
module Runtime {
  /** A `{action, url, type}` request object. */
  datatype Message = Message(action: string, url: string, mediaType: string)

  /** The options object handed to `chrome.downloads.download`. */
  datatype DownloadOptions = DownloadOptions(url: string, filename: string, saveAs: bool)

  /** The messages `chrome.runtime.sendMessage` has been handed, oldest first. */
  class Outbox {
    var sent: seq<Message>

    constructor ()
      ensures sent == []
    {
      sent := [];
    }

    /** `chrome.runtime.sendMessage(m)`: fire and forget. */
    method SendMessage(m: Message)
      modifies this
      ensures sent == old(sent) + [m]
    {
      sent := sent + [m];
    }
  }
}
