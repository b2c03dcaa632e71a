/**
 * The `contacts` table (main.go) as a sequence of rows in row-id order, and
 * the meaning of the four SQL statements the handler issues against it.
 * Rows are appended with increasing ids and never reordered, so row-id
 * order is insertion order.
 */
module Contacts {
  import opened Wrappers

  datatype Contact = Contact(name: string, phone: string)

  /** The `UNIQUE` constraint on the `name` column. */
  predicate NamesDistinct(t: seq<Contact>) {
    forall i, j :: 0 <= i < j < |t| ==> t[i].name != t[j].name
  }

  /** Every stored name and phone is non-empty (the handler only writes such values). */
  predicate FieldsFilled(t: seq<Contact>) {
    forall i :: 0 <= i < |t| ==> t[i].name != "" && t[i].phone != ""
  }

  /** The invariant the table keeps across requests. */
  predicate TableValid(t: seq<Contact>) {
    NamesDistinct(t) && FieldsFilled(t)
  }

  predicate HasName(t: seq<Contact>, name: string) {
    exists i :: 0 <= i < |t| && t[i].name == name
  }

  /** The row filter `WHERE name = ? OR phone_number = ?`. */
  predicate Matches(c: Contact, name: string, phone: string) {
    c.name == name || c.phone == phone
  }

  /** `INSERT INTO contacts (name, phone_number) VALUES (?, ?)`: None when the name is taken. */
  function Insert(t: seq<Contact>, c: Contact): Option<seq<Contact>> {
    if HasName(t, c.name) then None else Some(t + [c])
  }

  /** The index of the first row `QueryRow` scans that matches, or `|t|` when none does. */
  function FirstMatch(t: seq<Contact>, name: string, phone: string): (i: nat)
    ensures i <= |t|
    ensures forall j :: 0 <= j < i ==> !Matches(t[j], name, phone)
    ensures i < |t| ==> Matches(t[i], name, phone)
    decreases |t|
  {
    if t == [] then 0
    else if Matches(t[0], name, phone) then 0
    else 1 + FirstMatch(t[1..], name, phone)
  }

  /** `SELECT name, phone_number ... WHERE name = ? OR phone_number = ?` read with `QueryRow`. */
  function SelectFirst(t: seq<Contact>, name: string, phone: string): Option<Contact> {
    var i := FirstMatch(t, name, phone);
    if i < |t| then Some(t[i]) else None
  }

  /** `UPDATE contacts SET phone_number = ? WHERE name = ?`; no matching row is not an error. */
  function SetPhone(t: seq<Contact>, name: string, phone: string): (r: seq<Contact>)
    ensures |r| == |t|
    ensures forall i :: 0 <= i < |t| ==> r[i] == if t[i].name == name then Contact(name, phone) else t[i]
    decreases |t|
  {
    if t == [] then []
    else [if t[0].name == name then Contact(name, phone) else t[0]] + SetPhone(t[1..], name, phone)
  }

  /** `DELETE FROM contacts WHERE name = ? OR phone_number = ?`; may remove several rows or none. */
  function DeleteWhere(t: seq<Contact>, name: string, phone: string): (r: seq<Contact>)
    ensures |r| <= |t|
    ensures forall c :: c in r <==> c in t && !Matches(c, name, phone)
    decreases |t|
  {
    if t == [] then []
    else if Matches(t[0], name, phone) then DeleteWhere(t[1..], name, phone)
    else [t[0]] + DeleteWhere(t[1..], name, phone)
  }

  /** Insert fails exactly on a taken name, appends otherwise, and keeps the table invariant. */
  lemma InsertSpec(t: seq<Contact>, c: Contact)
    ensures Insert(t, c).None? <==> HasName(t, c.name)
    ensures Insert(t, c).Some? ==> Insert(t, c).value == t + [c]
    ensures TableValid(t) && c.name != "" && c.phone != "" && Insert(t, c).Some? ==>
              TableValid(Insert(t, c).value)
  {
    if TableValid(t) && c.name != "" && c.phone != "" && !HasName(t, c.name) {
      var r := t + [c];
      forall i, j | 0 <= i < j < |r| ensures r[i].name != r[j].name {
        if j == |t| {
          assert r[i] == t[i];
        }
      }
    }
  }

  /** SelectFirst yields the first row in table order that matches, or None when none does. */
  lemma SelectFirstSpec(t: seq<Contact>, name: string, phone: string)
    ensures SelectFirst(t, name, phone).None? <==> forall j :: 0 <= j < |t| ==> !Matches(t[j], name, phone)
    ensures SelectFirst(t, name, phone).Some? ==>
              var i := FirstMatch(t, name, phone);
              i < |t| && SelectFirst(t, name, phone).value == t[i] && Matches(t[i], name, phone)
  {
  }

  /** Any index whose row matches while no earlier row does is the one FirstMatch finds. */
  lemma FirstMatchUnique(t: seq<Contact>, name: string, phone: string, i: nat)
    requires i < |t| && Matches(t[i], name, phone)
    requires forall j :: 0 <= j < i ==> !Matches(t[j], name, phone)
    ensures FirstMatch(t, name, phone) == i
  {
  }

  /** Under the table invariant, an empty field never matches: the filter reduces to the other field. */
  lemma EmptyFieldMatchesNothing(t: seq<Contact>, name: string, phone: string, i: nat)
    requires FieldsFilled(t) && i < |t|
    ensures name == "" ==> (Matches(t[i], name, phone) <==> t[i].phone == phone)
    ensures phone == "" ==> (Matches(t[i], name, phone) <==> t[i].name == name)
  {
  }

  /** SetPhone leaves the names and their order alone, so it keeps the table invariant. */
  lemma {:induction false} SetPhoneKeepsValid(t: seq<Contact>, name: string, phone: string)
    requires TableValid(t) && phone != ""
    ensures TableValid(SetPhone(t, name, phone))
    ensures forall i :: 0 <= i < |t| ==> SetPhone(t, name, phone)[i].name == t[i].name
  {
  }

  /** An update of a name no row has changes nothing. */
  lemma SetPhoneAbsentName(t: seq<Contact>, name: string, phone: string)
    requires !HasName(t, name)
    ensures SetPhone(t, name, phone) == t
  {
    var r := SetPhone(t, name, phone);
    assert forall i :: 0 <= i < |t| ==> r[i] == t[i];
  }

  /** Deleting from a concatenation deletes from each part: the kept rows stay in their order. */
  lemma {:induction false} DeleteWhereAppend(a: seq<Contact>, b: seq<Contact>, name: string, phone: string)
    ensures DeleteWhere(a + b, name, phone) == DeleteWhere(a, name, phone) + DeleteWhere(b, name, phone)
    decreases |a|
  {
    if a == [] {
      assert a + b == b;
    } else {
      assert (a + b)[0] == a[0];
      assert (a + b)[1..] == a[1..] + b;
      DeleteWhereAppend(a[1..], b, name, phone);
    }
  }

  /** A single row is dropped exactly when it matches. */
  lemma DeleteWhereSingle(c: Contact, name: string, phone: string)
    ensures DeleteWhere([c], name, phone) == if Matches(c, name, phone) then [] else [c]
  {
    assert [c][1..] == [];
  }

  /** Nothing is left for a second identical delete to remove. */
  lemma {:induction false} DeleteWhereIdempotent(t: seq<Contact>, name: string, phone: string)
    ensures DeleteWhere(DeleteWhere(t, name, phone), name, phone) == DeleteWhere(t, name, phone)
    decreases |t|
  {
    if t != [] {
      DeleteWhereIdempotent(t[1..], name, phone);
      if !Matches(t[0], name, phone) {
        var rest := DeleteWhere(t[1..], name, phone);
        assert ([t[0]] + rest)[0] == t[0];
        assert ([t[0]] + rest)[1..] == rest;
      }
    }
  }

  /** Removing rows keeps the table invariant. */
  lemma {:induction false} DeleteWhereKeepsValid(t: seq<Contact>, name: string, phone: string)
    requires TableValid(t)
    ensures TableValid(DeleteWhere(t, name, phone))
    decreases |t|
  {
    if t != [] {
      var tail := t[1..];
      assert TableValid(tail) by {
        forall i, j | 0 <= i < j < |tail| ensures tail[i].name != tail[j].name {
          assert tail[i] == t[i + 1] && tail[j] == t[j + 1];
        }
      }
      DeleteWhereKeepsValid(tail, name, phone);
      if !Matches(t[0], name, phone) {
        var rest := DeleteWhere(tail, name, phone);
        var r := [t[0]] + rest;
        forall i, j | 0 <= i < j < |r| ensures r[i].name != r[j].name {
          if i == 0 {
            assert r[j] in rest;
            assert r[j] in tail;
            var k :| 0 <= k < |tail| && tail[k] == r[j];
            assert tail[k] == t[k + 1];
          } else {
            assert r[i] == rest[i - 1] && r[j] == rest[j - 1];
          }
        }
        forall i | 0 <= i < |r| ensures r[i].name != "" && r[i].phone != "" {
          if i > 0 {
            assert r[i] == rest[i - 1];
          }
        }
      }
    }
  }
}
