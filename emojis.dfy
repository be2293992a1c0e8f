/** The status marks of the results table (client/src/lib/emojis.ts). */
module Emojis {

  const Completed: string := "\U{2705}"
  const Failed: string := "\U{274C}"
  const Queued: string := "\U{23F3}"
  /** A gear followed by the emoji presentation selector. */
  const Running: string := "\U{2699}\U{FE0F}"
  const UnknownStatus: string := "\U{2753}"

  /** The statuses a crawl record can have. */
  const KnownStatuses: set<string> := {"completed", "error", "queued", "running"}

  /** `getStatusEmoji(status)`. */
  function StatusEmoji(status: string): (mark: string)
    ensures mark in {Completed, Failed, Queued, Running, UnknownStatus}
  {
    match status
    case "completed" => Completed
    case "error" => Failed
    case "queued" => Queued
    case "running" => Running
    case _ => UnknownStatus
  }

  /** The four known statuses get four different marks, none of them the
      mark of an unknown status; every other status gets that mark. */
  lemma MarksTellStatusesApart(s: string, t: string)
    ensures s in KnownStatuses && t in KnownStatuses && StatusEmoji(s) == StatusEmoji(t) ==> s == t
    ensures s in KnownStatuses <==> StatusEmoji(s) != UnknownStatus
  {
    assert Completed[0] != Failed[0] && Completed[0] != Queued[0] && Completed[0] != Running[0];
    assert Failed[0] != Queued[0] && Failed[0] != Running[0] && Queued[0] != Running[0];
    assert UnknownStatus[0] !in {Completed[0], Failed[0], Queued[0], Running[0]};
  }

  /** The mark of each known status. */
  lemma KnownMarks()
    ensures StatusEmoji("completed") == "\U{2705}" && StatusEmoji("error") == "\U{274C}"
    ensures StatusEmoji("queued") == "\U{23F3}" && StatusEmoji("running") == "\U{2699}\U{FE0F}"
    ensures |StatusEmoji("running")| == 2
  {
  }
}
