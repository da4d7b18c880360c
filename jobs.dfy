/**
 * The `EmailJob` entity: one persisted delivery job per (campaign, recipient)
 * pair, with its column defaults.
 */
module Jobs {
  import opened Wrappers

  /** Primary key. The store generates it; the model uses naturals handed out fresh. */
  type JobId = nat

  /** Instants are integer milliseconds since the epoch. */
  type Timestamp = int

  /** The `status` column: a string column that holds one of three values. */
  datatype Status = Scheduled | Sent | Failed

  /** The text stored in the `status` column for each status. */
  function StatusName(s: Status): string
  {
    match s
    case Scheduled => "scheduled"
    case Sent => "sent"
    case Failed => "failed"
  }

  /** Reads a `status` column text back; any other text is not a status. */
  function ParseStatus(t: string): (r: Option<Status>)
    ensures r.Some? ==> StatusName(r.value) == t
    ensures t !in {"scheduled", "sent", "failed"} ==> r.None?
  {
    if t == "scheduled" then Some(Scheduled)
    else if t == "sent" then Some(Sent)
    else if t == "failed" then Some(Failed)
    else None
  }

  /** Every status is stored as a text that reads back as that same status. */
  lemma StatusNameRoundTrip(s: Status)
    ensures ParseStatus(StatusName(s)) == Some(s)
    ensures forall s' :: StatusName(s') == StatusName(s) ==> s' == s
  {
  }

  /** A status text names exactly the status it reads back as. */
  lemma StatusTextMatches(t: string)
    ensures forall s :: StatusName(s) == t <==> ParseStatus(t) == Some(s)
  {
    forall s ensures StatusName(s) == t <==> ParseStatus(t) == Some(s) {
      StatusNameRoundTrip(s);
    }
  }

  /** A persisted row. `sentAt` is the one nullable column. */
  datatype EmailJob = EmailJob(
    id: JobId,
    email: string,
    subject: string,
    body: string,
    sender: string,
    sendAt: Timestamp,
    status: Status,
    sequence: int,
    createdAt: Timestamp,
    sentAt: Option<Timestamp>)

  /**
   * The columns a caller may hand to `repo.create`; `None` marks a column
   * left out, which then takes its default on insert.
   */
  datatype NewJob = NewJob(
    email: string,
    subject: string,
    body: string,
    sender: string,
    sendAt: Timestamp,
    status: Option<Status>,
    sequence: Option<int>,
    sentAt: Option<Timestamp>)

  /**
   * The row the store writes for `draft` under the generated key `id` at
   * instant `createdAt`: status defaults to scheduled, sequence to 0, and an
   * omitted `sentAt` is null.
   */
  function Persist(draft: NewJob, id: JobId, createdAt: Timestamp): EmailJob
  {
    EmailJob(
      id, draft.email, draft.subject, draft.body, draft.sender, draft.sendAt,
      match draft.status case Some(s) => s case None => Scheduled,
      match draft.sequence case Some(n) => n case None => 0,
      createdAt,
      draft.sentAt)
  }

  /** Column defaults: omitted columns take their defaults, supplied ones are kept. */
  lemma PersistDefaults(draft: NewJob, id: JobId, createdAt: Timestamp)
    ensures var r := Persist(draft, id, createdAt);
      && (draft.status == None ==> r.status == Scheduled)
      && (draft.sequence == None ==> r.sequence == 0)
      && r.sentAt == draft.sentAt
      && (forall s :: draft.status == Some(s) ==> r.status == s)
      && (forall n :: draft.sequence == Some(n) ==> r.sequence == n)
      && r.id == id && r.createdAt == createdAt
      && r.email == draft.email && r.subject == draft.subject && r.body == draft.body
      && r.sender == draft.sender && r.sendAt == draft.sendAt
  {
  }
}
