/**
 * What one request, and short sequences of requests, do to the contact
 * table and the pending-delete slot, stated over the handler function
 * `Api.Handle` that the `PhoneBook.PostQuery` method is proved to follow.
 */
module Properties {
  import opened Wrappers
  import opened Cmd
  import opened Contacts
  import opened Api

  /** Exactly the empty form value is answered with no content, and nothing changes. */
  lemma EmptyInputIsNoop(t: seq<Contact>, pending: Option<Command>, parsed: Parsed)
    ensures Handle(t, pending, "", parsed) == Transition(t, pending, NoContent)
  {
  }

  /** A parse error is reported with an empty query, and nothing changes. */
  lemma ParseErrorIsNoop(t: seq<Contact>, pending: Option<Command>, input: string, e: string)
    requires input != ""
    ensures Handle(t, pending, input, ParseError(e)) == Transition(t, pending, Rendered(ErrorReply(e, "")))
  {
  }

  /** Create of a free name appends exactly that contact; the reply has no space before the phone. */
  lemma CreateAppends(t: seq<Contact>, pending: Option<Command>, input: string, c: Command)
    requires input != "" && c.action == ActionCreate
    requires c.name != "" && c.phone != "" && !HasName(t, c.name)
    ensures Handle(t, pending, input, Parsed(c)) ==
              Transition(t + [Contact(c.name, c.phone)], Some(Zero),
                         Rendered(MessageReply(c.message + c.phone, TrimSpace(input))))
  {
    InsertSpec(t, Contact(c.name, c.phone));
  }

  /** A phone already stored does not stop a create: only the name is unique. */
  lemma CreateAllowsDuplicatePhone(t: seq<Contact>, pending: Option<Command>, input: string, c: Command, i: nat)
    requires input != "" && c.action == ActionCreate
    requires c.name != "" && c.phone != "" && !HasName(t, c.name)
    requires i < |t| && t[i].phone == c.phone
    ensures Handle(t, pending, input, Parsed(c)).table == t + [Contact(c.name, c.phone)]
    ensures Handle(t, pending, input, Parsed(c)).table[i].phone == Handle(t, pending, input, Parsed(c)).table[|t|].phone
  {
    InsertSpec(t, Contact(c.name, c.phone));
  }

  /**
   * Create, then Read by the new name: the reply carries the stored phone.
   * This relies on the table invariant: a stored row with an empty phone
   * would match the Read's `phone_number = ''` filter first.
   */
  lemma CreateThenReadByName(t: seq<Contact>, pending: Option<Command>, in1: string, c: Command,
                             in2: string, rd: Command)
    requires TableValid(t)
    requires in1 != "" && c.action == ActionCreate && c.name != "" && c.phone != "" && !HasName(t, c.name)
    requires in2 != "" && rd.action == ActionRead && rd.name == c.name && rd.name != NameAll && rd.phone == ""
    ensures var r1 := Handle(t, pending, in1, Parsed(c));
            var r2 := Handle(r1.table, r1.pending, in2, Parsed(rd));
            r2.table == r1.table
            && r2.outcome == Rendered(MessageReply(rd.message + " " + c.phone, TrimSpace(in2)))
  {
    InsertSpec(t, Contact(c.name, c.phone));
    var t1 := t + [Contact(c.name, c.phone)];
    forall j | 0 <= j < |t|
      ensures !Matches(t1[j], c.name, "")
    {
      assert t1[j] == t[j];
      EmptyFieldMatchesNothing(t, c.name, "", j);
    }
    FirstMatchUnique(t1, c.name, "", |t|);
  }

  /** Create of a taken name fails and leaves the table as it was; the slot is still reset. */
  lemma CreateDuplicateFails(t: seq<Contact>, pending: Option<Command>, input: string, c: Command)
    requires input != "" && c.action == ActionCreate
    requires c.name != "" && c.phone != "" && HasName(t, c.name)
    ensures Handle(t, pending, input, Parsed(c)) ==
              Transition(t, Some(Zero), Rendered(ErrorReply("Failed to create contact", TrimSpace(input))))
  {
    InsertSpec(t, Contact(c.name, c.phone));
  }

  /** Create or Update with a missing field is rejected without touching the table; the slot is reset. */
  lemma MissingFieldRejected(t: seq<Contact>, pending: Option<Command>, input: string, c: Command)
    requires input != "" && (c.action == ActionCreate || c.action == ActionUpdate)
    requires c.name == "" || c.phone == ""
    ensures Handle(t, pending, input, Parsed(c)) ==
              Transition(t, Some(Zero),
                         Rendered(ErrorReply(if c.action == ActionCreate then "[C] Name or Phone number is empty"
                                             else "[U] Name or Phone number is empty", TrimSpace(input))))
  {
  }

  /**
   * Update changes only the phone of the row with that name, keeps every other
   * row and the order, and reports success even when no row has the name.
   */
  lemma UpdateSetsPhone(t: seq<Contact>, pending: Option<Command>, input: string, c: Command)
    requires input != "" && c.action == ActionUpdate && c.name != "" && c.phone != ""
    ensures var r := Handle(t, pending, input, Parsed(c));
            && |r.table| == |t|
            && (forall i :: 0 <= i < |t| && t[i].name == c.name ==> r.table[i] == Contact(c.name, c.phone))
            && (forall i :: 0 <= i < |t| && t[i].name != c.name ==> r.table[i] == t[i])
            && (!HasName(t, c.name) ==> r.table == t)
            && r.pending == Some(Zero)
            && r.outcome == Rendered(MessageReply(c.message + " " + c.phone, TrimSpace(input)))
  {
    if !HasName(t, c.name) {
      SetPhoneAbsentName(t, c.name, c.phone);
    }
  }

  /** Read with the sentinel name lists every row in table order, possibly none, with `hasContacts` set. */
  lemma ReadAllListsTable(t: seq<Contact>, pending: Option<Command>, input: string, c: Command)
    requires input != "" && c.action == ActionRead && c.name == NameAll
    ensures Handle(t, pending, input, Parsed(c)) ==
              Transition(t, Some(Zero), Rendered(Response("", "", TrimSpace(input), t, true)))
  {
  }

  /** Read by name or phone with no matching row replies "Not found!" and changes no row. */
  lemma ReadNotFound(t: seq<Contact>, pending: Option<Command>, input: string, c: Command)
    requires input != "" && c.action == ActionRead && c.name != NameAll && HasTarget(c)
    requires forall j :: 0 <= j < |t| ==> !Matches(t[j], c.name, c.phone)
    ensures Handle(t, pending, input, Parsed(c)) ==
              Transition(t, Some(Zero), Rendered(ErrorReply("Not found!", TrimSpace(input))))
  {
    SelectFirstSpec(t, c.name, c.phone);
  }

  /**
   * Read by name or phone reports the first matching row: its phone when the
   * command gave a name, its name otherwise.
   */
  lemma ReadReportsFirstMatch(t: seq<Contact>, pending: Option<Command>, input: string, c: Command, i: nat)
    requires input != "" && c.action == ActionRead && c.name != NameAll && HasTarget(c)
    requires i < |t| && Matches(t[i], c.name, c.phone)
    requires forall j :: 0 <= j < i ==> !Matches(t[j], c.name, c.phone)
    ensures Handle(t, pending, input, Parsed(c)) ==
              Transition(t, Some(Zero),
                         Rendered(MessageReply(c.message + " " + (if c.name != "" then t[i].phone else t[i].name),
                                               TrimSpace(input))))
  {
    FirstMatchUnique(t, c.name, c.phone, i);
  }

  /** Read with neither field set is rejected; the table is unchanged and the slot reset. */
  lemma ReadWithoutTarget(t: seq<Contact>, pending: Option<Command>, input: string, c: Command)
    requires input != "" && c.action == ActionRead && !HasTarget(c)
    ensures Handle(t, pending, input, Parsed(c)) ==
              Transition(t, Some(Zero), Rendered(ErrorReply("[R] Failed to find contact", TrimSpace(input))))
  {
  }

  /** Delete with a target only arms the slot with the command and asks its question. */
  lemma DeleteArms(t: seq<Contact>, pending: Option<Command>, input: string, c: Command)
    requires input != "" && c.action == ActionDelete && HasTarget(c)
    ensures Handle(t, pending, input, Parsed(c)) ==
              Transition(t, Some(c), Rendered(MessageReply(c.message, TrimSpace(input))))
  {
  }

  /** Delete without a target is rejected and the slot keeps what it held. */
  lemma DeleteWithoutTarget(t: seq<Contact>, pending: Option<Command>, input: string, c: Command)
    requires input != "" && c.action == ActionDelete && !HasTarget(c)
    ensures Handle(t, pending, input, Parsed(c)) ==
              Transition(t, pending, Rendered(ErrorReply("[D] Name or Phone number is empty", TrimSpace(input))))
  {
  }

  /**
   * Confirm with an armed slot removes exactly the rows matching its name or
   * its phone, keeps the others in order, and leaves the slot armed.
   */
  lemma ConfirmRemovesMatches(t: seq<Contact>, last: Command, input: string, c: Command)
    requires input != "" && c.action == ActionConfirm && HasTarget(last)
    ensures var r := Handle(t, Some(last), input, Parsed(c));
            && r.table == DeleteWhere(t, last.name, last.phone)
            && (forall x :: x in r.table <==> x in t && !Matches(x, last.name, last.phone))
            && r.pending == Some(last)
            && r.outcome == Rendered(MessageReply("Removed contact: " + last.name, TrimSpace(input)))
  {
  }

  /** The slot is not cleared, so a second Confirm right after the first removes nothing more. */
  lemma ConfirmTwiceRemovesOnce(t: seq<Contact>, last: Command, in1: string, c1: Command, in2: string, c2: Command)
    requires in1 != "" && c1.action == ActionConfirm && in2 != "" && c2.action == ActionConfirm
    requires HasTarget(last)
    ensures var r1 := Handle(t, Some(last), in1, Parsed(c1));
            var r2 := Handle(r1.table, r1.pending, in2, Parsed(c2));
            r2.table == r1.table && r2.pending == Some(last)
  {
    DeleteWhereIdempotent(t, last.name, last.phone);
  }

  /** Confirm against a slot without a target (such as `Command{}`) answers with no content and changes nothing. */
  lemma ConfirmWithoutTarget(t: seq<Contact>, last: Command, input: string, c: Command)
    requires input != "" && c.action == ActionConfirm && !HasTarget(last)
    ensures Handle(t, Some(last), input, Parsed(c)) == Transition(t, Some(last), NoContent)
  {
  }

  /** Confirm while the slot is still the initial nil pointer dereferences it; nothing has changed. */
  lemma ConfirmNilPanics(t: seq<Contact>, input: string, c: Command)
    requires input != "" && c.action == ActionConfirm
    ensures Handle(t, None, input, Parsed(c)) == Transition(t, None, NilDereference)
  {
  }

  /** Cancel and every unlisted action reset the slot and leave the table alone. */
  lemma CancelAndDefaultReset(t: seq<Contact>, pending: Option<Command>, input: string, c: Command)
    requires input != "" && (c.action == ActionCancel || c.action !in Actions[..6])
    ensures Handle(t, pending, input, Parsed(c)) ==
              Transition(t, Some(Zero),
                         Rendered(if c.action == ActionCancel then MessageReply("Contact not removed.", TrimSpace(input))
                                  else ErrorReply("Unknown command", TrimSpace(input))))
  {
    DispatchExact(c.action);
  }

  /** A command whose action is the zero value, as `Command{}` has, is an unknown command. */
  lemma ZeroActionIsUnknown(t: seq<Contact>, pending: Option<Command>, input: string, c: Command)
    requires input != "" && c.action == Zero.action
    ensures Handle(t, pending, input, Parsed(c)).outcome == Rendered(ErrorReply("Unknown command", TrimSpace(input)))
    ensures Handle(t, pending, input, Parsed(c)).pending == Some(Zero)
  {
  }

  /** Only Create, Update and Confirm can change the table; every other path leaves it as it was. */
  lemma OnlyWritesChangeTable(t: seq<Contact>, pending: Option<Command>, input: string, parsed: Parsed)
    requires input == "" || parsed.ParseError? ||
             Dispatch(parsed.command.action) in {ReadCase, DeleteCase, CancelCase, DefaultCase}
    ensures Handle(t, pending, input, parsed).table == t
  {
  }

  /** Once the slot is non-nil it stays non-nil, so Confirm can only panic before any reset or delete. */
  lemma PendingStaysAllocated(t: seq<Contact>, pending: Option<Command>, input: string, parsed: Parsed)
    requires pending.Some?
    ensures Handle(t, pending, input, parsed).pending.Some?
    ensures Handle(t, pending, input, parsed).outcome != NilDereference
  {
  }

  /** The slot changes only on a request that reaches the switch with a non-confirming action. */
  lemma PendingKeptUnlessReset(t: seq<Contact>, pending: Option<Command>, input: string, parsed: Parsed)
    ensures var r := Handle(t, pending, input, parsed);
            r.pending != pending ==>
              input != "" && parsed.Parsed? &&
              (r.pending == Some(Zero) || (r.pending == Some(parsed.command) && Dispatch(parsed.command.action) == DeleteCase))
  {
  }

  /** Two-step delete: the Delete removes nothing, the Confirm right after removes the matching rows. */
  lemma DeleteThenConfirm(t: seq<Contact>, pending: Option<Command>, in1: string, d: Command, in2: string, y: Command)
    requires in1 != "" && d.action == ActionDelete && HasTarget(d)
    requires in2 != "" && y.action == ActionConfirm
    ensures var r1 := Handle(t, pending, in1, Parsed(d));
            var r2 := Handle(r1.table, r1.pending, in2, Parsed(y));
            r1.table == t && r2.table == DeleteWhere(t, d.name, d.phone)
            && r2.outcome == Rendered(MessageReply("Removed contact: " + d.name, TrimSpace(in2)))
  {
  }

  /** A Cancel between Delete and Confirm disarms the slot: nothing is removed and Confirm answers with no content. */
  lemma CancelDisarmsConfirm(t: seq<Contact>, pending: Option<Command>, in1: string, d: Command,
                             in2: string, n: Command, in3: string, y: Command)
    requires in1 != "" && d.action == ActionDelete
    requires in2 != "" && n.action == ActionCancel
    requires in3 != "" && y.action == ActionConfirm
    ensures var r1 := Handle(t, pending, in1, Parsed(d));
            var r2 := Handle(r1.table, r1.pending, in2, Parsed(n));
            var r3 := Handle(r2.table, r2.pending, in3, Parsed(y));
            r3.table == t && r3.pending == Some(Zero) && r3.outcome == NoContent
  {
  }

  /** A request other than Delete between a Delete and a Confirm also disarms it. */
  lemma InterveningRequestDisarms(t: seq<Contact>, pending: Option<Command>, in1: string, d: Command,
                                  in2: string, other: Command, in3: string, y: Command)
    requires in1 != "" && d.action == ActionDelete && HasTarget(d)
    requires in2 != "" && Dispatch(other.action) in {CreateCase, ReadCase, UpdateCase, CancelCase, DefaultCase}
    requires in3 != "" && y.action == ActionConfirm
    ensures var r1 := Handle(t, pending, in1, Parsed(d));
            var r2 := Handle(r1.table, r1.pending, in2, Parsed(other));
            var r3 := Handle(r2.table, r2.pending, in3, Parsed(y));
            r3.table == r2.table && r3.outcome == NoContent
  {
  }
}
