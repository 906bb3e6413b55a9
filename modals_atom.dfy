/** Which modal dialogs are open (`modalsAtom`, `inputDisabledAtom`,
    `openModal` and `closeModal` in src/atoms/modals.atom.ts). */
module ModalsAtom {

  datatype Modal = MoveIssue | UpdatePriority | UpdateAssignee | LinkedResources

  /** The flags record held by `modalsAtom`. */
  datatype Flags = Flags(moveIssue: bool, updatePriority: bool, updateAssignee: bool, linkedResources: bool)
  {
    function Get(modal: Modal): bool {
      match modal
      case MoveIssue => moveIssue
      case UpdatePriority => updatePriority
      case UpdateAssignee => updateAssignee
      case LinkedResources => linkedResources
    }

    /** `{ ...prev, [modal]: value }`: flag `modal` becomes `value`, every
        other flag keeps its value. */
    function With(modal: Modal, value: bool): (r: Flags)
      ensures r.Get(modal) == value
      ensures forall other :: other != modal ==> r.Get(other) == Get(other)
    {
      match modal
      case MoveIssue => this.(moveIssue := value)
      case UpdatePriority => this.(updatePriority := value)
      case UpdateAssignee => this.(updateAssignee := value)
      case LinkedResources => this.(linkedResources := value)
    }

    /** `Object.values(flags).some((v) => v === true)`: input is disabled
        exactly while some modal is open. */
    predicate InputDisabled()
      ensures InputDisabled() <==> exists modal :: Get(modal)
    {
      assert moveIssue ==> Get(MoveIssue);
      assert updatePriority ==> Get(UpdatePriority);
      assert updateAssignee ==> Get(UpdateAssignee);
      assert linkedResources ==> Get(LinkedResources);
      moveIssue || updatePriority || updateAssignee || linkedResources
    }
  }

  const AllClosed: Flags := Flags(false, false, false, false)

  /** Setting a flag twice to the same value is the same as setting it once. */
  lemma WithIdempotent(flags: Flags, modal: Modal, value: bool)
    ensures flags.With(modal, value).With(modal, value) == flags.With(modal, value)
  {
    var once := flags.With(modal, value);
    var twice := once.With(modal, value);
    assert forall m :: twice.Get(m) == once.Get(m);
    FlagsExtensional(twice, once);
  }

  /** Two flag records that agree on every modal are the same record. */
  lemma FlagsExtensional(a: Flags, b: Flags)
    requires forall m :: a.Get(m) == b.Get(m)
    ensures a == b
  {
    assert a.Get(MoveIssue) == b.Get(MoveIssue);
    assert a.Get(UpdatePriority) == b.Get(UpdatePriority);
    assert a.Get(UpdateAssignee) == b.Get(UpdateAssignee);
    assert a.Get(LinkedResources) == b.Get(LinkedResources);
  }

  /** Opening a modal disables input; closing one re-enables input exactly
      when no other modal is open. */
  lemma OpenCloseInput(flags: Flags, modal: Modal)
    ensures flags.With(modal, true).InputDisabled()
    ensures flags.With(modal, false).InputDisabled() <==> exists other :: other != modal && flags.Get(other)
  {
    var closed := flags.With(modal, false);
    if closed.InputDisabled() {
      var other :| closed.Get(other);
      assert other != modal && flags.Get(other);
    }
    assert flags.With(modal, true).Get(modal);
  }

  /** The store cell holding `modalsAtom`. */
  class Modals {
    var flags: Flags

    /** Initially every modal is closed. */
    constructor ()
      ensures flags == AllClosed && !flags.InputDisabled()
    {
      flags := AllClosed;
    }

    /** `openModal(modal)`. */
    method OpenModal(modal: Modal)
      modifies this
      ensures flags == old(flags).With(modal, true)
      ensures flags.InputDisabled()
    {
      flags := flags.With(modal, true);
      OpenCloseInput(old(flags), modal);
    }

    /** `closeModal(modal)`. */
    method CloseModal(modal: Modal)
      modifies this
      ensures flags == old(flags).With(modal, false)
      ensures !flags.Get(modal)
    {
      flags := flags.With(modal, false);
    }

    /** `inputDisabledAtom`. */
    function InputDisabled(): bool
      reads this
    {
      flags.InputDisabled()
    }
  }
}
