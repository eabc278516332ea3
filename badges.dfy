/**
 * The status badge shown in each table row and the dialog an administrator
 * uses to change a status. The vocabulary is the three statuses
 * "On Progress", "Pending" and "Done".
 */
module StatusBadges {
  import opened Wrappers
  import opened Accounts
  import opened Documents

  datatype Status = OnProgress | Pending | Done

  function Name(s: Status): string {
    match s
    case OnProgress => "On Progress"
    case Pending => "Pending"
    case Done => "Done"
  }

  /** The options of the status dialog, in the order it lists them. */
  const Choices: seq<Status> := [OnProgress, Pending, Done]

  /** Reads a status cell as one of the three known statuses, if it is one. */
  function KnownStatus(c: Cell): (r: Option<Status>)
    ensures r.Some? ==> c == Str(Name(r.value))
    ensures r.None? ==> forall s: Status :: c != Str(Name(s))
  {
    match c
    case Str("On Progress") => Some(OnProgress)
    case Str("Pending") => Some(Pending)
    case Str("Done") => Some(Done)
    case _ => None
  }

  /** The Bootstrap colour class of a status badge. */
  function BadgeClass(status: Cell): (cls: string)
    ensures cls in ["bg-primary", "bg-success", "bg-warning text-dark", "bg-secondary"]
    ensures cls == "bg-secondary" <==> KnownStatus(status).None?
  {
    if status == Str("On Progress") then "bg-primary"
    else if status == Str("Done") then "bg-success"
    else if status == Str("Pending") then "bg-warning text-dark"
    else "bg-secondary"
  }

  /** Reads a colour class back as the status it stands for. */
  function ClassStatus(cls: string): Option<Status> {
    if cls == "bg-primary" then Some(OnProgress)
    else if cls == "bg-success" then Some(Done)
    else if cls == "bg-warning text-dark" then Some(Pending)
    else None
  }

  /** The colour tells the known statuses apart, and every other status gets
      the neutral colour. */
  lemma BadgeClassIdentifiesStatus(status: Cell)
    ensures ClassStatus(BadgeClass(status)) == KnownStatus(status)
    ensures KnownStatus(status).None? <==> BadgeClass(status) == "bg-secondary"
  {
  }

  /** `UI.promptStatusChange(code, current)`, the call a clickable badge makes;
      both arguments are the cells as printed into the page. */
  datatype Prompt = Prompt(code: string, current: string)

  datatype Badge = Badge(text: Cell, colorClass: string, onClick: Option<Prompt>)

  /** `UI.getStatusBadge(status, code)`: the badge shows the status in its
      colour and opens the status dialog only for an administrator. */
  function StatusBadge(session: Session, status: Cell, code: Cell): (b: Badge)
    ensures b.onClick.Some? <==> IsAdmin(session)
    ensures b.onClick.Some? ==> b.onClick.value == Prompt(Display(code), Display(status))
    ensures b.text == status && b.colorClass == BadgeClass(status)
  {
    var click := if IsAdmin(session) then Some(Prompt(Display(code), Display(status))) else None;
    Badge(status, BadgeClass(status), click)
  }

  /** How the status dialog was closed. */
  datatype Answer = Dismissed | Confirmed(choice: Status)

  /** The status change the dialog asks for. */
  datatype StatusChange = StatusChange(code: string, newStatus: string)

  /** The dialog's outcome: a change is asked for only when the dialog was
      confirmed with a status different from the current one, and the new
      status is always one of the offered choices. */
  function Decide(p: Prompt, a: Answer): (r: Option<StatusChange>)
    ensures r.Some? <==> a.Confirmed? && Name(a.choice) != p.current
    ensures r.Some? ==> r.value == StatusChange(p.code, Name(a.choice))
    ensures r.Some? ==> r.value.code == p.code && r.value.newStatus != p.current
    ensures r.Some? ==> exists s :: s in Choices && r.value.newStatus == Name(s)
  {
    if a.Confirmed? && Name(a.choice) != p.current then
      assert a.choice in Choices;
      Some(StatusChange(p.code, Name(a.choice)))
    else None
  }

  /** Reopening the dialog on a badge of a known status and confirming that
      same status asks for no change. */
  lemma ConfirmingCurrentStatusIsNoChange(session: Session, s: Status, code: Cell)
    requires IsAdmin(session)
    ensures var b := StatusBadge(session, Str(Name(s)), code);
      Decide(b.onClick.value, Confirmed(s)) == None
  {
  }
}
