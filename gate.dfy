/**
 * The edit passphrase: its default, the check made before a row is toggled or
 * deleted, and the three-step change of the passphrase.
 */
module Gate {
  import opened Wrappers
  import opened Items

  /** The passphrase in force when none has been stored. */
  const DefaultPassphrase: string := "0000"

  /** The shortest replacement passphrase the change form accepts. */
  const MinPassphraseLength: nat := 4

  /**
   * `getPassword`: the stored passphrase, or the default when storage holds
   * nothing or the empty string.
   */
  function GetPassword(stored: Option<string>): (p: string)
    ensures p != []
    ensures stored.Some? && stored.value != [] ==> p == stored.value
    ensures stored.None? || stored.value == [] ==> p == DefaultPassphrase
  {
    if stored.None? || stored.value == [] then DefaultPassphrase else stored.value
  }

  /**
   * The row-button gate: the prompt's answer (None when the prompt is cancelled)
   * opens it only when it is exactly the current passphrase.
   */
  function Admits(answer: Option<string>, passphrase: string): (ok: bool)
    ensures ok ==> answer.Some?
    ensures answer.Some? ==> (ok <==> answer.value == passphrase)
  {
    answer == Some(passphrase)
  }

  /** The two buttons on an inventory row. */
  datatype RowAction = ToggleButton | DeleteButton

  /**
   * The list's click handler: a toggle or a delete of the row with this id,
   * performed only when the gate admits the answer.
   */
  function HandleClick(inv: seq<Item>, passphrase: string, action: RowAction,
                       answer: Option<string>, id: int, confirmed: bool): (r: seq<Item>)
    ensures !Admits(answer, passphrase) ==> r == inv
    ensures Admits(answer, passphrase) && action == ToggleButton ==> r == ToggleById(inv, id)
    ensures Admits(answer, passphrase) && action == DeleteButton ==> r == DeleteById(inv, id, confirmed)
  {
    if !Admits(answer, passphrase) then inv
    else match action
      case ToggleButton => ToggleById(inv, id)
      case DeleteButton => DeleteById(inv, id, confirmed)
  }

  /** A cancelled prompt or a wrong answer leaves the inventory as it was. */
  lemma RejectedClickChangesNothing(inv: seq<Item>, passphrase: string, action: RowAction,
                                    answer: Option<string>, id: int, confirmed: bool)
    requires answer.None? || answer.value != passphrase
    ensures HandleClick(inv, passphrase, action, answer, id, confirmed) == inv
  {
  }

  /** Which of the change form's checks decided its outcome. */
  datatype ChangeOutcome = Changed | WrongCurrent | ConfirmMismatch | TooShort

  /**
   * The passphrase-change form, its checks in the handler's order: the current
   * passphrase, then the confirmation, then the minimum length.
   */
  function CheckChange(stored: string, current: string, next: string, confirm: string): (o: ChangeOutcome)
    ensures o == Changed <==> current == stored && next == confirm && |next| >= MinPassphraseLength
    ensures current != stored ==> o == WrongCurrent
    ensures current == stored && next != confirm ==> o == ConfirmMismatch
    ensures current == stored && next == confirm && |next| < MinPassphraseLength ==> o == TooShort
    ensures o == TooShort ==> current == stored && next == confirm && |next| < MinPassphraseLength
  {
    if current != stored then WrongCurrent
    else if next != confirm then ConfirmMismatch
    else if |next| < MinPassphraseLength then TooShort
    else Changed
  }

  /** The passphrase stored once the change form has been submitted. */
  function PassphraseAfter(stored: string, current: string, next: string, confirm: string): (p: string)
    ensures current == stored && next == confirm && |next| >= MinPassphraseLength ==> p == next
    ensures !(current == stored && next == confirm && |next| >= MinPassphraseLength) ==> p == stored
    ensures p != stored ==> |p| >= MinPassphraseLength && current == stored
  {
    if CheckChange(stored, current, next, confirm) == Changed then next else stored
  }

  /**
   * After a successful change the gate admits the new passphrase and no longer
   * admits the old one, unless the two are the same.
   */
  lemma ChangeMovesTheGate(stored: string, next: string)
    requires |next| >= MinPassphraseLength
    ensures var p := PassphraseAfter(stored, stored, next, next);
      Admits(Some(next), p) && (Admits(Some(stored), p) <==> stored == next)
  {
  }
}
