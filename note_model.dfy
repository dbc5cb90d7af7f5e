/** The Note schema: its required fields, the `completed` default, and the
    auto-increment plugin that numbers notes from 500 in steps of 1. */
module NoteModel {
  import opened Wrappers
  import opened Js
  import opened Tables

  /** A stored note. `user` holds the owner reference as the request gave
      it; the schema does not check that such a user exists. The
      `createdAt`/`updatedAt` timestamps are not modelled. */
  datatype Note = Note(user: Value, title: Value, text: Value, completed: bool, ticketNum: int)

  /** The plugin's `startAt` and `incrementBy`. */
  const TicketStart: int := 500
  const TicketStep: int := 1

  /** The ticket number the plugin gives to the `k`-th note ever created,
      counting from 0. */
  function TicketOf(k: nat): (t: int)
    ensures t >= TicketStart
  {
    TicketStart + k * TicketStep
  }

  /** Later creations get strictly larger ticket numbers. */
  lemma TicketsIncrease(i: nat, j: nat)
    requires i < j
    ensures TicketOf(i) < TicketOf(j)
  {
  }

  /** The `required: true` validator of the schema: the value is not
      missing, not null and not the empty string. */
  predicate Required(v: Value) {
    v != Undefined && v != Null && v != Str("")
  }

  /** A note the schema's validation lets into the table. */
  predicate Conforms(n: Note) {
    Required(n.user) && Required(n.title) && Required(n.text)
  }

  /** Every value that passes a handler's truthiness test passes the
      schema's `required` validator. */
  lemma TruthyIsRequired(v: Value)
    requires Truthy(v)
    ensures Required(v)
  {
  }

  /** `Note.create` on a document with the given fields: the document is
      refused when a required field is missing; otherwise it is stored with
      `completed` as given or `false` by default, and with the ticket
      number the plugin hands out. */
  function Create(user: Value, title: Value, text: Value, completed: Option<bool>, ticketNum: int): (r: Option<Note>)
    ensures r.Some? <==> Required(user) && Required(title) && Required(text)
    ensures r.Some? ==> Conforms(r.value) && r.value.ticketNum == ticketNum
    ensures r.Some? ==> r.value.user == user && r.value.title == title && r.value.text == text
    ensures r.Some? && completed.None? ==> !r.value.completed
    ensures r.Some? && completed.Some? ==> r.value.completed == completed.value
  {
    if Required(user) && Required(title) && Required(text) then
      Some(Note(user, title, text, if completed.Some? then completed.value else false, ticketNum))
    else
      None
  }

  /** Ticket numbers grow along `order`, the natural order of the notes. */
  ghost predicate TicketsAscend(order: seq<Id>, notes: map<Id, Note>)
    requires forall i | 0 <= i < |order| :: order[i] in notes
  {
    forall i, j | 0 <= i < j < |order| ::
      notes[order[i]].ticketNum < notes[order[j]].ticketNum
  }

  /** A note appended with a ticket above all others keeps tickets ascending. */
  lemma {:induction false} AppendKeepsTicketsAscending(order: seq<Id>, notes: map<Id, Note>, k: Id, n: Note)
    requires forall i | 0 <= i < |order| :: order[i] in notes
    requires TicketsAscend(order, notes)
    requires k !in notes
    requires forall x | x in notes :: notes[x].ticketNum < n.ticketNum
    ensures TicketsAscend(order + [k], notes[k := n])
  {
    var o, m := order + [k], notes[k := n];
    forall i, j | 0 <= i < j < |o|
      ensures m[o[i]].ticketNum < m[o[j]].ticketNum
    {
      assert o[i] == order[i] && o[i] != k;
      if j < |order| {
        assert o[j] == order[j] && o[j] != k;
      }
    }
  }

  /** Taking a note out keeps the rest ascending. */
  lemma {:induction false} WithoutKeepsTicketsAscending(order: seq<Id>, notes: map<Id, Note>, k: Id)
    requires Indexes(order, notes)
    requires TicketsAscend(order, notes)
    requires k in notes
    ensures Indexes(Without(order, k), notes - {k})
    ensures TicketsAscend(Without(order, k), notes - {k})
  {
    WithoutIndexes(order, notes, k);
    var r, p := Without(order, k), IndexOf(order, k);
    forall i, j | 0 <= i < j < |r|
      ensures (notes - {k})[r[i]].ticketNum < (notes - {k})[r[j]].ticketNum
    {
      var i', j' := if i < p then i else i + 1, if j < p then j else j + 1;
      assert r[i] == order[i'] && r[j] == order[j'] && i' < j';
    }
  }

  /** Rewriting a note but not its ticket keeps tickets ascending. */
  lemma {:induction false} SaveKeepsTicketsAscending(order: seq<Id>, notes: map<Id, Note>, k: Id, n: Note)
    requires forall i | 0 <= i < |order| :: order[i] in notes
    requires TicketsAscend(order, notes)
    requires k in notes && n.ticketNum == notes[k].ticketNum
    ensures TicketsAscend(order, notes[k := n])
  {
    var m := notes[k := n];
    forall i, j | 0 <= i < j < |order|
      ensures m[order[i]].ticketNum < m[order[j]].ticketNum
    {
      assert m[order[i]].ticketNum == notes[order[i]].ticketNum;
      assert m[order[j]].ticketNum == notes[order[j]].ticketNum;
    }
  }
}
