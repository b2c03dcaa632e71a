/**
 * The structured command that the language model's JSON reply is decoded
 * into (pkg/cmd/command.go): the record, the action values and the sentinel
 * name that asks for every contact.
 */
module Cmd {

  /** An action is a raw string: decoding accepts any value, not only the listed ones. */
  type Action = string

  const ActionCreate: Action := "create"
  const ActionRead: Action := "read"
  const ActionUpdate: Action := "update"
  const ActionDelete: Action := "delete"
  const ActionConfirm: Action := "yes"
  const ActionCancel: Action := "no"
  const ActionUnknown: Action := ""

  /** The name a read-all request carries instead of a contact's name. */
  const NameAll: string := "A-L-L"

  /** The seven declared action values, in declaration order. */
  const Actions: seq<Action> :=
    [ActionCreate, ActionRead, ActionUpdate, ActionDelete, ActionConfirm, ActionCancel, ActionUnknown]

  /** An empty `name` or `phone` means the field was not given. */
  datatype Command = Command(action: Action, name: string, phone: string, message: string)

  /** Go's zero value `Command{}`, which the handler stores as "nothing pending". */
  const Zero: Command := Command("", "", "", "")

  /** The command names a contact, by name or by phone. */
  predicate HasTarget(c: Command) {
    c.name != "" || c.phone != ""
  }

  /** No two declared action values are equal, so a value selects at most one of them. */
  lemma ActionsDistinct()
    ensures |Actions| == 7
    ensures forall i, j :: 0 <= i < j < |Actions| ==> Actions[i] != Actions[j]
  {
  }

  /** `ActionUnknown` is the zero value: the action of `Command{}` and of a reply without an action field. */
  lemma ZeroIsUnknown()
    ensures Zero.action == ActionUnknown
    ensures Zero == Command(ActionUnknown, "", "", "")
    ensures !HasTarget(Zero)
  {
  }

  /** The sentinel is non-empty, so a read-all command always has a target. */
  lemma NameAllIsTarget(c: Command)
    requires c.name == NameAll
    ensures HasTarget(c)
  {
  }
}
