/** keeper/admin.py: the bulk status change offered on the accession list.
    `update_status` looks up the label of the new status, sets the status of
    every selected accession in one update and reports how many rows changed;
    the four actions fix the status code. */
module Admin {
  import opened Text
  import opened Wrappers
  import opened Constants
  import opened Models

  /** The outcome of `update_status`: the message shown to the admin user, or
      the `IndexError` raised when the code has no label. */
  datatype UpdateResult = Message(text: string) | NoSuchStatus

  /** The accessions with status `status` wherever their id is selected;
      every other field, and every other row, unchanged. */
  function SetStatus(accessions: seq<Accession>, selected: set<nat>, status: string): (r: seq<Accession>)
    ensures |r| == |accessions|
    ensures forall i :: 0 <= i < |r| ==>
      r[i] == (if accessions[i].id in selected then accessions[i].(accessionStatus := status) else accessions[i])
  {
    if |accessions| == 0 then []
    else
      var k := |accessions| - 1;
      var a := accessions[k];
      SetStatus(accessions[..k], selected, status) + [if a.id in selected then a.(accessionStatus := status) else a]
  }

  /** The indices of the selected rows. */
  function SelectedRows(accessions: seq<Accession>, selected: set<nat>): set<nat>
  {
    set i: nat | i < |accessions| && accessions[i].id in selected
  }

  /** The number of rows the update touches: one per accession whose id is
      selected. */
  function CountSelected(accessions: seq<Accession>, selected: set<nat>): (n: nat)
    ensures n <= |accessions|
    ensures n == |SelectedRows(accessions, selected)|
  {
    if |accessions| == 0 then
      assert SelectedRows(accessions, selected) == {};
      0
    else
      var k := |accessions| - 1;
      SelectedRowsSnoc(accessions, selected);
      CountSelected(accessions[..k], selected) + (if accessions[k].id in selected then 1 else 0)
  }

  /** Adding the last row adds its index, which is new, when it is selected. */
  lemma SelectedRowsSnoc(accessions: seq<Accession>, selected: set<nat>)
    requires |accessions| > 0
    ensures var k := |accessions| - 1;
      k !in SelectedRows(accessions[..k], selected)
      && SelectedRows(accessions, selected)
         == SelectedRows(accessions[..k], selected) + (if accessions[k].id in selected then {k} else {})
  {
  }

  /** The noun and verb after the count: singular exactly for one row. */
  function Noun(rowsUpdated: nat): string
  {
    if rowsUpdated == 1 then "accession was" else "accessions were"
  }

  /** `"1 accession was"` for one row, `"<n> accessions were"` otherwise. */
  function MessageBit(rowsUpdated: nat): string
  {
    if rowsUpdated == 1 then "1 " + Noun(rowsUpdated) else NatToString(rowsUpdated) + " " + Noun(rowsUpdated)
  }

  function UpdateMessage(rowsUpdated: nat, statusDesc: string): string
  {
    MessageBit(rowsUpdated) + " successfully marked as " + statusDesc
  }

  /** What follows the count: the noun and the new status label. */
  function MessageTail(rowsUpdated: nat, statusDesc: string): string
  {
    Noun(rowsUpdated) + " successfully marked as " + statusDesc
  }

  /** Whatever the count, the message is the count in decimal, one space,
      and the tail. */
  lemma UpdateMessageShape(rowsUpdated: nat, statusDesc: string)
    ensures UpdateMessage(rowsUpdated, statusDesc) == NatToString(rowsUpdated) + [' '] + MessageTail(rowsUpdated, statusDesc)
  {
    var noun := Noun(rowsUpdated);
    var head := NatToString(rowsUpdated) + [' '];
    if rowsUpdated == 1 {
      assert NatToString(1) == "1";
    }
    assert MessageBit(rowsUpdated) == head + noun;
    Regroup(head, noun, " successfully marked as ", statusDesc);
  }

  lemma Regroup(h: string, n: string, l: string, d: string)
    ensures ((h + n) + l) + d == h + ((n + l) + d)
  {
  }

  /** The decimal rendering of a number followed by a space and anything:
      its first word is the number. */
  lemma NumberFirstWord(n: nat, rest: string)
    ensures BeforeFirst(NatToString(n) + [' '] + rest, ' ') == NatToString(n)
  {
    var digits := NatToString(n);
    assert forall k :: 0 <= k < |digits| ==> digits[k] != ' ';
    BeforeFirstOfPiece(digits, ' ', rest);
  }

  /** The row count can be read back from the message's first word. */
  lemma UpdateMessageCount(rowsUpdated: nat, statusDesc: string)
    ensures var head := BeforeFirst(UpdateMessage(rowsUpdated, statusDesc), ' ');
      head == NatToString(rowsUpdated)
      && (forall i :: 0 <= i < |head| ==> IsDigit(head[i])) && ParseDigits(head) == rowsUpdated
  {
    UpdateMessageShape(rowsUpdated, statusDesc);
    NumberFirstWord(rowsUpdated, MessageTail(rowsUpdated, statusDesc));
    ParseNatToString(rowsUpdated);
  }

  /** `update_status(request, queryset, new_status)`: the label is looked up
      first; then the selected rows get the new status and the message counts
      them. The bulk update leaves the other fields, the last-updated date
      included, as they were. */
  method UpdateStatus(db: Database, selected: set<nat>, newStatus: string) returns (r: UpdateResult)
    requires db.Valid()
    modifies db`accessions
    ensures db.Valid()
    ensures StatusLabel(newStatus).None? ==> r == NoSuchStatus && db.accessions == old(db.accessions)
    ensures StatusLabel(newStatus).Some? ==>
      db.accessions == SetStatus(old(db.accessions), selected, newStatus)
      && r == Message(UpdateMessage(CountSelected(old(db.accessions), selected), StatusLabel(newStatus).value))
  {
    var statusDesc := StatusLabel(newStatus);
    if statusDesc.None? {
      return NoSuchStatus;
    }
    var rowsUpdated := CountSelected(db.accessions, selected);
    SetStatusKeepsRows(db.accessions, db.files, db.nextId, selected, newStatus);
    db.accessions := SetStatus(db.accessions, selected, newStatus);
    r := Message(UpdateMessage(rowsUpdated, statusDesc.value));
  }

  /** The update never changes an id, so consistent rows stay consistent
      whatever is selected. */
  lemma SetStatusKeepsRows(accessions: seq<Accession>, files: seq<FileRecord>, nextId: nat, selected: set<nat>, status: string)
    requires ValidRows(accessions, files, nextId)
    ensures ValidRows(SetStatus(accessions, selected, status), files, nextId)
  {
  }

  /** Counting the selected rows one at a time. */
  lemma {:induction false} CountSelectedBounds(accessions: seq<Accession>, selected: set<nat>)
    ensures CountSelected(accessions, selected) == 0 <==> forall i :: 0 <= i < |accessions| ==> accessions[i].id !in selected
    ensures CountSelected(accessions, selected) == |accessions| <==> forall i :: 0 <= i < |accessions| ==> accessions[i].id in selected
  {
    if |accessions| > 0 {
      var init := accessions[..|accessions| - 1];
      CountSelectedBounds(init, selected);
      assert forall i :: 0 <= i < |init| ==> init[i] == accessions[i];
    }
  }

  /** Applying the same update twice changes nothing more. */
  lemma SetStatusIdempotent(accessions: seq<Accession>, selected: set<nat>, status: string)
    ensures SetStatus(SetStatus(accessions, selected, status), selected, status) == SetStatus(accessions, selected, status)
  {
    var once := SetStatus(accessions, selected, status);
    var twice := SetStatus(once, selected, status);
    assert forall i :: 0 <= i < |twice| ==> twice[i] == once[i];
  }

  /** The four admin actions. */
  datatype Action = UpdateStatusNew | UpdateStatusReview | UpdateStatusAccepted | UpdateStatusRejected

  /** The status code each action passes to `update_status`. */
  function ActionStatus(action: Action): string
  {
    match action
    case UpdateStatusNew => New
    case UpdateStatusReview => Review
    case UpdateStatusAccepted => Accepted
    case UpdateStatusRejected => Rejected
  }

  /** Every action passes a code that has a label, so the actions never hit
      the `IndexError`. */
  lemma ActionsHaveLabels(action: Action)
    ensures StatusLabel(ActionStatus(action)).Some?
  {
    StatusLabels();
  }

  /** An action: `update_status` with the action's code. */
  method RunAction(db: Database, selected: set<nat>, action: Action) returns (r: UpdateResult)
    requires db.Valid()
    modifies db`accessions
    ensures db.Valid()
    ensures db.accessions == SetStatus(old(db.accessions), selected, ActionStatus(action))
    ensures StatusLabel(ActionStatus(action)).Some?
      && r == Message(UpdateMessage(CountSelected(old(db.accessions), selected), StatusLabel(ActionStatus(action)).value))
  {
    ActionsHaveLabels(action);
    r := UpdateStatus(db, selected, ActionStatus(action));
  }
}
