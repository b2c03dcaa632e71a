/**
 * The `POST /api/query` handler of main.go: one request reads the form
 * field, asks the language model for a command (an input here), dispatches
 * on its action, issues at most one statement against the contact table,
 * may reassign the pending-delete slot, and answers.
 */
module Api {
  import opened Wrappers
  import opened Cmd
  import opened Contacts

  /** The record rendered by the `response-element` template. */
  datatype Response = Response(error: string, message: string, query: string, contacts: seq<Contact>, hasContacts: bool)

  function ErrorReply(error: string, query: string): Response {
    Response(error, "", query, [], false)
  }

  function MessageReply(message: string, query: string): Response {
    Response("", message, query, [], false)
  }

  /** What the handler hands back to the web server. */
  datatype Outcome =
    | NoContent                       // `c.NoContent(http.StatusOK)`
    | Rendered(response: Response)    // `c.Render(http.StatusOK, "response-element", ...)`
    | NilDereference                  // the handler panics reading through a nil `lastCommand`

  /** What `UserQuery.Parse` returned for the trimmed query. */
  datatype Parsed = Parsed(command: Command) | ParseError(error: string)

  /** The branches of `switch command.Action`. */
  datatype Branch = CreateCase | ReadCase | UpdateCase | DeleteCase | ConfirmCase | CancelCase | DefaultCase

  /** The branch Go's switch selects: the first case whose constant equals the action, else default. */
  function Dispatch(a: Action): Branch {
    if a == ActionCreate then CreateCase
    else if a == ActionRead then ReadCase
    else if a == ActionUpdate then UpdateCase
    else if a == ActionDelete then DeleteCase
    else if a == ActionConfirm then ConfirmCase
    else if a == ActionCancel then CancelCase
    else DefaultCase
  }

  /** Each case constant selects its own branch, and every other string, "" included, selects default. */
  lemma DispatchExact(a: Action)
    ensures Dispatch(a) == CreateCase <==> a == ActionCreate
    ensures Dispatch(a) == ReadCase <==> a == ActionRead
    ensures Dispatch(a) == UpdateCase <==> a == ActionUpdate
    ensures Dispatch(a) == DeleteCase <==> a == ActionDelete
    ensures Dispatch(a) == ConfirmCase <==> a == ActionConfirm
    ensures Dispatch(a) == CancelCase <==> a == ActionCancel
    ensures Dispatch(a) == DefaultCase <==> a !in Actions[..6]
    ensures Dispatch(ActionUnknown) == DefaultCase
  {
    assert Actions[..6] == [ActionCreate, ActionRead, ActionUpdate, ActionDelete, ActionConfirm, ActionCancel];
  }

  // ---------------------------------------------------------------------------
  // strings.TrimSpace

  /** Go's `unicode.IsSpace`. */
  predicate IsSpace(c: char) {
    c == ' ' || c == '\t' || c == '\n' || c == '\r' || c == '\U{B}' || c == '\U{C}'
    || c == '\U{85}' || c == '\U{A0}' || c == '\U{1680}'
    || ('\U{2000}' <= c <= '\U{200A}')
    || c == '\U{2028}' || c == '\U{2029}' || c == '\U{202F}' || c == '\U{205F}' || c == '\U{3000}'
  }

  /** The length of the run of white space that starts `s`. */
  function LeadingSpace(s: string): (n: nat)
    ensures n <= |s|
    ensures forall k :: 0 <= k < n ==> IsSpace(s[k])
    ensures n < |s| ==> !IsSpace(s[n])
    decreases |s|
  {
    if s != [] && IsSpace(s[0]) then 1 + LeadingSpace(s[1..]) else 0
  }

  /** The length of the run of white space that ends `s`. */
  function TrailingSpace(s: string): (n: nat)
    ensures n <= |s|
    ensures forall k :: |s| - n <= k < |s| ==> IsSpace(s[k])
    ensures n < |s| ==> !IsSpace(s[|s| - 1 - n])
    decreases |s|
  {
    if s != [] && IsSpace(s[|s| - 1]) then 1 + TrailingSpace(s[..|s| - 1]) else 0
  }

  /** `strings.TrimSpace`: the slice of `s` between its leading and trailing white space. */
  function TrimSpace(s: string): (r: string)
    ensures |r| <= |s|
    ensures r != [] ==> !IsSpace(r[0]) && !IsSpace(r[|r| - 1])
    ensures r == [] <==> forall k :: 0 <= k < |s| ==> IsSpace(s[k])
    ensures var i := LeadingSpace(s);
              i + |r| <= |s| && r == s[i..i + |r|] && forall k :: i + |r| <= k < |s| ==> IsSpace(s[k])
  {
    var i := LeadingSpace(s);
    var rest := s[i..];
    var r := rest[..|rest| - TrailingSpace(rest)];
    assert forall k :: i + |r| <= k < |s| ==> s[k] == rest[k - i];
    assert r == s[i..i + |r|];
    r
  }

  // ---------------------------------------------------------------------------
  // One request, as a function of the table, the pending slot and the inputs

  /** The table, the pending slot and the answer after one request. */
  datatype Transition = Transition(table: seq<Contact>, pending: Option<Command>, outcome: Outcome)

  /** `case cmd.ActionCreate`: the slot is reset first, then the row is inserted when both fields are set. */
  function CreateStep(t: seq<Contact>, c: Command, query: string): Transition {
    if c.name != "" && c.phone != "" then
      match Insert(t, Contact(c.name, c.phone))
      case None => Transition(t, Some(Zero), Rendered(ErrorReply("Failed to create contact", query)))
      case Some(t') => Transition(t', Some(Zero), Rendered(MessageReply(c.message + c.phone, query)))
    else
      Transition(t, Some(Zero), Rendered(ErrorReply("[C] Name or Phone number is empty", query)))
  }

  /** `case cmd.ActionRead`: read-all, lookup by name or phone, or the "neither set" error. */
  function ReadStep(t: seq<Contact>, c: Command, query: string): Transition {
    if c.name == NameAll then
      Transition(t, Some(Zero), Rendered(Response("", "", query, t, true)))
    else if c.name != "" || c.phone != "" then
      match SelectFirst(t, c.name, c.phone)
      case None => Transition(t, Some(Zero), Rendered(ErrorReply("Not found!", query)))
      case Some(row) =>
        var reported := if c.name != "" then row.phone else row.name;
        Transition(t, Some(Zero), Rendered(MessageReply(c.message + " " + reported, query)))
    else
      Transition(t, Some(Zero), Rendered(ErrorReply("[R] Failed to find contact", query)))
  }

  /** `case cmd.ActionUpdate`: the slot is reset first, then the phone is set when both fields are. */
  function UpdateStep(t: seq<Contact>, c: Command, query: string): Transition {
    if c.name != "" && c.phone != "" then
      Transition(SetPhone(t, c.name, c.phone), Some(Zero), Rendered(MessageReply(c.message + " " + c.phone, query)))
    else
      Transition(t, Some(Zero), Rendered(ErrorReply("[U] Name or Phone number is empty", query)))
  }

  /** `case cmd.ActionDelete`: arm the slot with the command; the table is not touched. */
  function DeleteStep(t: seq<Contact>, pending: Option<Command>, c: Command, query: string): Transition {
    if c.name != "" || c.phone != "" then
      Transition(t, Some(c), Rendered(MessageReply(c.message, query)))
    else
      Transition(t, pending, Rendered(ErrorReply("[D] Name or Phone number is empty", query)))
  }

  /** `case cmd.ActionConfirm`: delete what the slot names; the slot is left as it is. */
  function ConfirmStep(t: seq<Contact>, pending: Option<Command>, query: string): Transition {
    match pending
    case None => Transition(t, pending, NilDereference)
    case Some(last) =>
      if last.name != "" || last.phone != "" then
        Transition(DeleteWhere(t, last.name, last.phone), pending,
                   Rendered(MessageReply("Removed contact: " + last.name, query)))
      else
        Transition(t, pending, NoContent)
  }

  /** The whole handler: empty input, parse error, then the switch. */
  function Handle(t: seq<Contact>, pending: Option<Command>, input: string, parsed: Parsed): Transition {
    if input == "" then Transition(t, pending, NoContent)
    else match parsed
      case ParseError(e) => Transition(t, pending, Rendered(ErrorReply(e, "")))
      case Parsed(c) =>
        var query := TrimSpace(input);
        match Dispatch(c.action)
        case CreateCase => CreateStep(t, c, query)
        case ReadCase => ReadStep(t, c, query)
        case UpdateCase => UpdateStep(t, c, query)
        case DeleteCase => DeleteStep(t, pending, c, query)
        case ConfirmCase => ConfirmStep(t, pending, query)
        case CancelCase => Transition(t, Some(Zero), Rendered(MessageReply("Contact not removed.", query)))
        case DefaultCase => Transition(t, Some(Zero), Rendered(ErrorReply("Unknown command", query)))
  }

  /** Every request keeps the table invariant. */
  lemma HandleKeepsValid(t: seq<Contact>, pending: Option<Command>, input: string, parsed: Parsed)
    requires TableValid(t)
    ensures TableValid(Handle(t, pending, input, parsed).table)
  {
    if input != "" && parsed.Parsed? {
      var c := parsed.command;
      match Dispatch(c.action)
      case CreateCase => InsertSpec(t, Contact(c.name, c.phone));
      case UpdateCase => if c.name != "" && c.phone != "" { SetPhoneKeepsValid(t, c.name, c.phone); }
      case ConfirmCase =>
        if pending.Some? { DeleteWhereKeepsValid(t, pending.value.name, pending.value.phone); }
      case _ =>
    }
  }

  // ---------------------------------------------------------------------------
  // The running handler: the table and `lastCommand` updated in place

  class PhoneBook {
    /** The rows of the `contacts` table in row-id order. */
    var table: seq<Contact>
    /** `lastCommand`: None is the nil pointer it starts as. */
    var lastCommand: Option<Command>

    predicate Valid()
      reads this
    {
      TableValid(table)
    }

    /** Server start-up over an existing database; `lastCommand` is declared nil. */
    constructor (rows: seq<Contact>)
      ensures table == rows && lastCommand == None
      ensures TableValid(rows) ==> Valid()
    {
      table := rows;
      lastCommand := None;
    }

    /** `SELECT * FROM contacts` read with `for rows.Next()`: every row, in table order. */
    method SelectAll() returns (contacts: seq<Contact>)
      ensures contacts == table
    {
      contacts := [];
      var i := 0;
      while i < |table|
        invariant 0 <= i <= |table|
        invariant contacts == table[..i]
      {
        contacts := contacts + [table[i]];
        i := i + 1;
      }
    }

    /** One `POST /api/query` request with form value `input` and parse result `parsed`. */
    method PostQuery(input: string, parsed: Parsed) returns (out: Outcome)
      modifies this
      ensures var r := Handle(old(table), old(lastCommand), input, parsed);
              table == r.table && lastCommand == r.pending && out == r.outcome
      ensures old(Valid()) ==> Valid()
    {
      ghost var t0, p0 := table, lastCommand;
      if TableValid(t0) {
        HandleKeepsValid(t0, p0, input, parsed);
      }
      if input == "" {
        return NoContent;
      }
      var query := TrimSpace(input);
      if parsed.ParseError? {
        return Rendered(ErrorReply(parsed.error, ""));
      }
      var command := parsed.command;
      match Dispatch(command.action) {
        case CreateCase =>
          lastCommand := Some(Zero);
          if command.name != "" && command.phone != "" {
            var inserted := Insert(table, Contact(command.name, command.phone));
            if inserted.None? {
              return Rendered(ErrorReply("Failed to create contact", query));
            }
            table := inserted.value;
            return Rendered(MessageReply(command.message + command.phone, query));
          } else {
            return Rendered(ErrorReply("[C] Name or Phone number is empty", query));
          }
        case ReadCase =>
          lastCommand := Some(Zero);
          if command.name == NameAll {
            var contacts := SelectAll();
            return Rendered(Response("", "", query, contacts, true));
          } else if command.name != "" || command.phone != "" {
            var row := SelectFirst(table, command.name, command.phone);
            if row.None? {
              return Rendered(ErrorReply("Not found!", query));
            }
            if command.name != "" {
              return Rendered(MessageReply(command.message + " " + row.value.phone, query));
            } else {
              return Rendered(MessageReply(command.message + " " + row.value.name, query));
            }
          } else {
            return Rendered(ErrorReply("[R] Failed to find contact", query));
          }
        case UpdateCase =>
          lastCommand := Some(Zero);
          if command.name != "" && command.phone != "" {
            table := SetPhone(table, command.name, command.phone);
            return Rendered(MessageReply(command.message + " " + command.phone, query));
          } else {
            return Rendered(ErrorReply("[U] Name or Phone number is empty", query));
          }
        case DeleteCase =>
          if command.name != "" || command.phone != "" {
            lastCommand := Some(command);
            return Rendered(MessageReply(command.message, query));
          } else {
            return Rendered(ErrorReply("[D] Name or Phone number is empty", query));
          }
        case ConfirmCase =>
          if lastCommand.None? {
            return NilDereference;
          }
          var last := lastCommand.value;
          if last.name != "" || last.phone != "" {
            table := DeleteWhere(table, last.name, last.phone);
            return Rendered(MessageReply("Removed contact: " + last.name, query));
          }
        case CancelCase =>
          lastCommand := Some(Zero);
          return Rendered(MessageReply("Contact not removed.", query));
        case DefaultCase =>
          lastCommand := Some(Zero);
          return Rendered(ErrorReply("Unknown command", query));
      }
      return NoContent;
    }
  }
}
