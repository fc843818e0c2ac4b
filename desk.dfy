/**
 * The ticket store behind the request handlers: creating a ticket, the
 * status/assignee update POSTed to the detail page, attaching a file, and
 * the append-only event log `add_event` writes to.
 */
module Desk {
  import opened Wrappers
  import opened Text

  // ------------------------------------------------------------------
  // Rows
  // ------------------------------------------------------------------

  datatype Ticket = Ticket(
    id: nat,
    title: string,
    content: string,
    requester: string,
    assignee: Option<string>,
    priority: string,
    status: string,
    createdAt: int,
    updatedAt: int)

  datatype Event = Event(
    ticketId: nat,
    actor: string,
    action: string,
    fromValue: Option<string>,
    toValue: Option<string>,
    createdAt: int)

  /** `FILES_DIR/<ticket id>/<leaf>`: the ticket's directory and the stored file name in it. */
  datatype StoredPath = StoredPath(ticketDir: nat, leaf: string)

  datatype Attachment = Attachment(
    ticketId: nat,
    filename: string,
    storedPath: StoredPath,
    size: nat,
    mimetype: Option<string>,
    createdAt: int)

  /** `abort(400, ...)` and `get_or_404`. */
  datatype Error = BadRequest(message: string) | NotFound

  // ------------------------------------------------------------------
  // Creating a ticket
  // ------------------------------------------------------------------

  /** The form has the field and it is not all whitespace. */
  ghost predicate Supplied(form: Form, key: string)
  {
    key in form && !Blank(form[key])
  }

  /** `form.get(key, "").strip()` is empty exactly when the field is missing or blank. */
  lemma StrippedFieldEmptyIff(form: Form, key: string)
    ensures Strip(Get(form, key, "")) == "" <==> !Supplied(form, key)
  {
    if key in form {
      StripEmptyIff(form[key]);
    }
  }

  /** `form.get("priority", "med").strip() or "med"` is the stripped field when supplied, else "med". */
  lemma PriorityDefaultsToMed(form: Form)
    ensures Or(Strip(Get(form, "priority", "med")), "med")
         == if Supplied(form, "priority") then Strip(form["priority"]) else "med"
  {
    if "priority" in form {
      StripEmptyIff(form["priority"]);
    } else {
      StripOfTrimmed("med");
    }
  }

  datatype NewTicketFields = NewTicketFields(title: string, content: string, requester: string, priority: string)

  /**
   * The validation at the top of `new_ticket`: strips every field, rejects
   * the form when the stripped title or requester is empty, and falls back
   * to "med" when the stripped priority is.
   */
  function ReadNewTicketForm(form: Form): (r: Result<NewTicketFields, Error>)
    ensures r.Failure? ==> r.error == BadRequest("title/requester required")
    ensures r.Success? ==> r.value.title != "" && r.value.requester != "" && r.value.priority != ""
  {
    var title := Strip(Get(form, "title", ""));
    var content := Strip(Get(form, "content", ""));
    var requester := Strip(Get(form, "requester", ""));
    var priority := Or(Strip(Get(form, "priority", "med")), "med");
    if title == "" || requester == "" then
      Failure(BadRequest("title/requester required"))
    else
      Success(NewTicketFields(title, content, requester, priority))
  }

  /**
   * A creation form is rejected, with 400, exactly when its title or
   * requester is missing or blank.
   */
  lemma ReadNewTicketFormRejects(form: Form)
    ensures ReadNewTicketForm(form).Failure? <==> !Supplied(form, "title") || !Supplied(form, "requester")
    ensures ReadNewTicketForm(form).Failure? ==> ReadNewTicketForm(form).error == BadRequest("title/requester required")
  {
    StrippedFieldEmptyIff(form, "title");
    StrippedFieldEmptyIff(form, "requester");
  }

  /**
   * An accepted form yields the stripped, non-empty title and requester,
   * the stripped content ("" when missing), and the stripped priority, or
   * "med" when it is missing or blank.
   */
  lemma ReadNewTicketFormFields(form: Form)
    requires ReadNewTicketForm(form).Success?
    ensures var f := ReadNewTicketForm(form).value;
      && f.title == Strip(form["title"]) && f.title != ""
      && f.requester == Strip(form["requester"]) && f.requester != ""
      && f.content == (if "content" in form then Strip(form["content"]) else "")
      && f.priority == (if Supplied(form, "priority") then Strip(form["priority"]) else "med")
  {
    ReadNewTicketFormRejects(form);
    PriorityDefaultsToMed(form);
  }

  // ------------------------------------------------------------------
  // Updating a ticket
  // ------------------------------------------------------------------

  /**
   * `t.status = form.get("status", t.status)` and `t.assignee =
   * form.get("assignee", t.assignee)`, then the commit: `updated_at` is
   * refreshed only when the flush writes the row, that is when one of the
   * two values actually changed.
   */
  function ApplyUpdate(t: Ticket, form: Form, now: int): (u: Ticket)
    ensures u.status == (if "status" in form then form["status"] else t.status)
    ensures u.assignee == (if "assignee" in form then Some(form["assignee"]) else t.assignee)
    ensures u.(status := t.status, assignee := t.assignee, updatedAt := t.updatedAt) == t
    ensures u.updatedAt == if u.status != t.status || u.assignee != t.assignee then now else t.updatedAt
  {
    var status := Get(form, "status", t.status);
    var assignee := if "assignee" in form then Some(form["assignee"]) else t.assignee;
    var changed := status != t.status || assignee != t.assignee;
    t.(status := status, assignee := assignee, updatedAt := if changed then now else t.updatedAt)
  }

  /** `t.assignee or '-'`: None and "" both show as "-". */
  function AssigneeShown(a: Option<string>): (s: string)
    ensures s != ""
    ensures a.Some? && a.value != "" ==> s == a.value
    ensures (a.None? || a.value == "") ==> s == "-"
  {
    match a
    case None => "-"
    case Some(x) => Or(x, "-")
  }

  /** The `to_value` of an update event: `f"{t.status}/{t.assignee or '-'}"`. */
  function Summary(t: Ticket): (s: string)
    ensures |s| == |t.status| + 1 + |AssigneeShown(t.assignee)|
    ensures s[..|t.status|] == t.status && s[|t.status|] == '/'
    ensures s[|t.status| + 1..] == AssigneeShown(t.assignee)
  {
    t.status + "/" + AssigneeShown(t.assignee)
  }

  /** The actor of an update event: `form.get("author", "user") or "user"`. */
  function UpdateActor(form: Form): (a: string)
    ensures a != ""
    ensures "author" in form && form["author"] != "" ==> a == form["author"]
    ensures !("author" in form && form["author"] != "") ==> a == "user"
  {
    Or(Get(form, "author", "user"), "user")
  }

  /** Splits a string at its first '/', or None when it has none. */
  function SplitAtSlash(s: string): (r: Option<(string, string)>)
    ensures r.None? <==> '/' !in s
    ensures r.Some? ==> '/' !in r.value.0 && s == r.value.0 + "/" + r.value.1
  {
    if s == [] then None
    else if s[0] == '/' then Some(([], s[1..]))
    else
      match SplitAtSlash(s[1..])
      case None => None
      case Some(p) => Some(([s[0]] + p.0, p.1))
  }

  /** Splitting `a + "/" + b` at the first '/' gives back `a` and `b` when `a` has no '/'. */
  lemma {:induction false} SplitAtSlashJoin(a: string, b: string)
    requires '/' !in a
    ensures SplitAtSlash(a + "/" + b) == Some((a, b))
  {
    var s := a + "/" + b;
    if a == [] {
      assert s[1..] == b;
    } else {
      assert s[0] == a[0] && s[1..] == a[1..] + "/" + b;
      SplitAtSlashJoin(a[1..], b);
      assert [a[0]] + a[1..] == a;
    }
  }

  /** When the status has no '/', the update event's value gives back the status and the shown assignee. */
  lemma SummaryRecoversFields(t: Ticket)
    requires '/' !in t.status
    ensures SplitAtSlash(Summary(t)) == Some((t.status, AssigneeShown(t.assignee)))
  {
    SplitAtSlashJoin(t.status, AssigneeShown(t.assignee));
  }

  /** A POST without status and assignee fields leaves the ticket, its update time included, as it was. */
  lemma EmptyUpdateKeepsTicket(t: Ticket, form: Form, now: int)
    requires "status" !in form && "assignee" !in form
    ensures ApplyUpdate(t, form, now) == t
  {
    var u := ApplyUpdate(t, form, now);
    assert u.(status := t.status, assignee := t.assignee, updatedAt := t.updatedAt) == t;
  }

  // ------------------------------------------------------------------
  // Attaching a file
  // ------------------------------------------------------------------

  /** `if not f or f.filename == ""`: a missing part or an empty filename is ignored. */
  predicate AcceptsUpload(file: Option<string>)
  {
    file.Some? && file.value != ""
  }

  /** `uuid.uuid4().hex`: 32 lower-case hexadecimal digits. */
  predicate IsHexToken(t: string)
  {
    |t| == 32 && forall i :: 0 <= i < |t| ==> t[i] in "0123456789abcdef"
  }

  /** The stored file name `f"{token}__{safe_name or 'file'}"`. */
  function Leaf(token: string, safeName: string): (l: string)
    ensures |l| == |token| + 2 + |Or(safeName, "file")|
    ensures l[..|token|] == token
    ensures l[|token|..|token| + 2] == "__"
    ensures l[|token| + 2..] == Or(safeName, "file")
  {
    token + "__" + Or(safeName, "file")
  }

  /** Reads the token and the name back out of a stored file name. */
  function ParseLeaf(l: string): Option<(string, string)>
  {
    if |l| >= 34 && IsHexToken(l[..32]) && l[32..34] == "__" then Some((l[..32], l[34..])) else None
  }

  /** The token and the (defaulted) name can be read back from the stored file name. */
  lemma LeafRoundTrip(token: string, safeName: string)
    requires IsHexToken(token)
    ensures ParseLeaf(Leaf(token, safeName)) == Some((token, Or(safeName, "file")))
  {
    var l := Leaf(token, safeName);
    assert l[..32] == token;
  }

  /**
   * With tokens of one length (every uuid hex is 32 digits), two stored
   * names are equal exactly when the tokens and the defaulted names are:
   * two uploads of one name under distinct tokens never collide.
   */
  lemma LeafInjective(t1: string, n1: string, t2: string, n2: string)
    requires |t1| == |t2|
    ensures Leaf(t1, n1) == Leaf(t2, n2) <==> t1 == t2 && Or(n1, "file") == Or(n2, "file")
  {
    if Leaf(t1, n1) == Leaf(t2, n2) {
      assert t1 == Leaf(t1, n1)[..|t1|] == t2;
      assert Or(n1, "file") == Leaf(t1, n1)[|t1| + 2..] == Or(n2, "file");
    }
  }

  /**
   * When neither the token nor the sanitised name contains a separator
   * (what `secure_filename` and a hex token give), the stored name is one
   * path component, never "." or "..", so the file stays in the ticket's directory.
   */
  lemma LeafIsOneComponent(token: string, safeName: string)
    requires '/' !in token && '/' !in safeName
    ensures '/' !in Leaf(token, safeName)
    ensures Leaf(token, safeName) != "." && Leaf(token, safeName) != ".."
  {
    var l := Leaf(token, safeName);
    assert l == token + "__" + Or(safeName, "file");
    assert |l| >= 3;
  }

  // ------------------------------------------------------------------
  // The event log, per ticket
  // ------------------------------------------------------------------

  /** The events of one ticket, oldest first. */
  function EventsFor(events: seq<Event>, id: nat): (h: seq<Event>)
    ensures |h| <= |events|
    ensures forall e :: e in h <==> e in events && e.ticketId == id
  {
    if events == [] then []
    else
      var last := events[|events| - 1];
      EventsFor(events[..|events| - 1], id) + (if last.ticketId == id then [last] else [])
  }

  /** A new event joins the history of its own ticket, at the end. */
  lemma EventsForAppendOwn(events: seq<Event>, e: Event)
    ensures EventsFor(events + [e], e.ticketId) == EventsFor(events, e.ticketId) + [e]
  {
    assert (events + [e])[..|events|] == events;
  }

  /** A new event leaves the history of every other ticket as it was. */
  lemma EventsForAppendOther(events: seq<Event>, e: Event, id: nat)
    requires e.ticketId != id
    ensures EventsFor(events + [e], id) == EventsFor(events, id)
  {
    assert (events + [e])[..|events|] == events;
    assert EventsFor(events, id) + [] == EventsFor(events, id);
  }

  /** A sequence in reverse order. */
  function Reversed(s: seq<Event>): (r: seq<Event>)
    ensures |r| == |s|
    ensures forall i :: 0 <= i < |r| ==> r[i] == s[|s| - 1 - i]
  {
    seq(|s|, i requires 0 <= i < |s| => s[|s| - 1 - i])
  }

  /** Reversing `s + [x]` puts `x` first, ahead of `s` reversed. */
  lemma ReversedAppend(s: seq<Event>, x: Event)
    ensures Reversed(s + [x]) == [x] + Reversed(s)
  {
    var r := Reversed(s + [x]);
    var q := [x] + Reversed(s);
    forall i | 0 <= i < |r| ensures r[i] == q[i] {
      if i > 0 {
        assert r[i] == s[|s| - i];
      }
    }
  }

  /** The detail page's `order_by(Event.id.desc())`: the ticket's events, newest first. */
  function NewestFirst(events: seq<Event>, id: nat): (r: seq<Event>)
    ensures |r| == |EventsFor(events, id)|
    ensures forall i :: 0 <= i < |r| ==> r[i] == EventsFor(events, id)[|r| - 1 - i]
  {
    Reversed(EventsFor(events, id))
  }

  /** A new event heads its own ticket's listing, above every earlier event of that ticket. */
  lemma NewestFirstAppendOwn(events: seq<Event>, e: Event)
    ensures NewestFirst(events + [e], e.ticketId) == [e] + NewestFirst(events, e.ticketId)
  {
    EventsForAppendOwn(events, e);
    ReversedAppend(EventsFor(events, e.ticketId), e);
  }

  /** A new event leaves every other ticket's listing as it was. */
  lemma NewestFirstAppendOther(events: seq<Event>, e: Event, id: nat)
    requires e.ticketId != id
    ensures NewestFirst(events + [e], id) == NewestFirst(events, id)
  {
    EventsForAppendOther(events, e, id);
  }

  /** The latest update event in a ticket's history. */
  function LastUpdate(h: seq<Event>): (r: Option<Event>)
    ensures r.Some? ==> r.value in h && r.value.action == "update"
    ensures r.None? <==> forall e :: e in h ==> e.action != "update"
  {
    if h == [] then None
    else if h[|h| - 1].action == "update" then Some(h[|h| - 1])
    else LastUpdate(h[..|h| - 1])
  }

  lemma LastUpdateAppend(h: seq<Event>, e: Event)
    ensures LastUpdate(h + [e]) == if e.action == "update" then Some(e) else LastUpdate(h)
  {
    assert (h + [e])[..|h|] == h;
  }

  /**
   * A ticket's history explains it: the history starts with a "created"
   * event by its requester, and the latest "update" event records its
   * current status and shown assignee; with no update event yet the
   * ticket is still open and unassigned.
   */
  ghost predicate Explains(t: Ticket, h: seq<Event>)
  {
    && h != []
    && h[0].action == "created" && h[0].actor == t.requester
    && match LastUpdate(h)
       case None => t.status == "open" && t.assignee.None?
       case Some(e) => e.toValue == Some(Summary(t))
  }

  /** The event log explains every ticket in the table. */
  ghost predicate HistoryExplains(tickets: map<nat, Ticket>, events: seq<Event>)
  {
    forall id :: id in tickets ==> Explains(tickets[id], EventsFor(events, id))
  }

  /** The "created" event alone explains a fresh open, unassigned ticket. */
  lemma CreatedEventExplains(t: Ticket, e: Event)
    requires t.status == "open" && t.assignee.None?
    requires e.action == "created" && e.actor == t.requester
    ensures Explains(t, [e])
  {
    assert LastUpdate([e]) == LastUpdate([]);
  }

  /** An update event recording the ticket's new summary explains the updated ticket. */
  lemma UpdateEventExplains(t: Ticket, h: seq<Event>, u: Ticket, e: Event)
    requires Explains(t, h)
    requires u.requester == t.requester
    requires e.action == "update" && e.toValue == Some(Summary(u))
    ensures Explains(u, h + [e])
  {
    LastUpdateAppend(h, e);
  }

  /** An event other than "update" does not change what the history says. */
  lemma OtherEventExplains(t: Ticket, h: seq<Event>, e: Event)
    requires Explains(t, h)
    requires e.action != "update"
    ensures Explains(t, h + [e])
  {
    LastUpdateAppend(h, e);
  }

  /** A ticket with no events has an empty history. */
  lemma NoEventsFor(events: seq<Event>, id: nat)
    requires forall i :: 0 <= i < |events| ==> events[i].ticketId != id
    ensures EventsFor(events, id) == []
  {
  }

  /** A new open, unassigned ticket with its "created" event keeps the log explaining every ticket. */
  lemma CreateKeepsHistory(tickets: map<nat, Ticket>, events: seq<Event>, t: Ticket, e: Event)
    requires HistoryExplains(tickets, events)
    requires forall i :: 0 <= i < |events| ==> events[i].ticketId != t.id
    requires t.status == "open" && t.assignee.None?
    requires e == Event(t.id, t.requester, "created", None, None, e.createdAt)
    ensures HistoryExplains(tickets[t.id := t], events + [e])
  {
    var ts := tickets[t.id := t];
    forall id | id in ts ensures Explains(ts[id], EventsFor(events + [e], id)) {
      if id == t.id {
        NoEventsFor(events, id);
        EventsForAppendOwn(events, e);
        assert EventsFor(events + [e], id) == [e];
        CreatedEventExplains(t, e);
      } else {
        EventsForAppendOther(events, e, id);
        assert Explains(tickets[id], EventsFor(events, id));
      }
    }
  }

  /** An update event recording the new status and assignee keeps the log explaining every ticket. */
  lemma UpdateKeepsHistory(tickets: map<nat, Ticket>, events: seq<Event>, u: Ticket, e: Event)
    requires HistoryExplains(tickets, events)
    requires u.id in tickets && u.requester == tickets[u.id].requester
    requires e.ticketId == u.id && e.action == "update" && e.toValue == Some(Summary(u))
    ensures HistoryExplains(tickets[u.id := u], events + [e])
  {
    var ts := tickets[u.id := u];
    forall id | id in ts ensures Explains(ts[id], EventsFor(events + [e], id)) {
      if id == u.id {
        EventsForAppendOwn(events, e);
        assert Explains(tickets[id], EventsFor(events, id));
        UpdateEventExplains(tickets[id], EventsFor(events, id), u, e);
      } else {
        EventsForAppendOther(events, e, id);
        assert Explains(tickets[id], EventsFor(events, id));
      }
    }
  }

  /** An event other than "update" on an existing ticket keeps the log explaining every ticket. */
  lemma OtherEventKeepsHistory(tickets: map<nat, Ticket>, events: seq<Event>, e: Event)
    requires HistoryExplains(tickets, events)
    requires e.ticketId in tickets && e.action != "update"
    ensures HistoryExplains(tickets, events + [e])
  {
    forall id | id in tickets ensures Explains(tickets[id], EventsFor(events + [e], id)) {
      assert Explains(tickets[id], EventsFor(events, id));
      if id == e.ticketId {
        EventsForAppendOwn(events, e);
        OtherEventExplains(tickets[id], EventsFor(events, id), e);
      } else {
        EventsForAppendOther(events, e, id);
      }
    }
  }

  // ------------------------------------------------------------------
  // The store
  // ------------------------------------------------------------------

  /**
   * Ticket rows are keyed by their ids, all below the next id to assign,
   * which is one more than the largest id (as SQLite assigns the rowid of
   * an `INTEGER PRIMARY KEY`), or 1 when there is no ticket; every event
   * and attachment belongs to an existing ticket, and every attachment is
   * stored in its own ticket's directory.
   */
  ghost predicate TablesConsistent(tickets: map<nat, Ticket>, events: seq<Event>, attachments: seq<Attachment>, nextId: nat)
  {
    && 1 <= nextId
    && (nextId == 1 || nextId - 1 in tickets)
    && (forall id :: id in tickets ==> tickets[id].id == id && id < nextId)
    && (forall i :: 0 <= i < |events| ==> events[i].ticketId in tickets)
    && (forall i :: 0 <= i < |attachments| ==>
          attachments[i].ticketId in tickets && attachments[i].storedPath.ticketDir == attachments[i].ticketId)
  }

  /** Adding a ticket under the next id with an event of its own keeps the tables consistent; no earlier event is the new ticket's. */
  lemma CreateKeepsTables(tickets: map<nat, Ticket>, events: seq<Event>, attachments: seq<Attachment>, nextId: nat, t: Ticket, e: Event)
    requires TablesConsistent(tickets, events, attachments, nextId)
    requires t.id == nextId && e.ticketId == nextId
    ensures nextId !in tickets
    ensures forall i :: 0 <= i < |events| ==> events[i].ticketId != t.id
    ensures TablesConsistent(tickets[nextId := t], events + [e], attachments, nextId + 1)
  {
  }

  /**
   * Inserting an open, unassigned ticket under the next id with its
   * "created" event keeps the tables consistent, and keeps the log
   * explaining every ticket when it did before.
   */
  lemma CreateKeepsStore(tickets: map<nat, Ticket>, events: seq<Event>, attachments: seq<Attachment>, nextId: nat, t: Ticket, e: Event)
    requires TablesConsistent(tickets, events, attachments, nextId)
    requires t.id == nextId && t.status == "open" && t.assignee.None?
    requires e == Event(t.id, t.requester, "created", None, None, e.createdAt)
    ensures nextId !in tickets
    ensures TablesConsistent(tickets[nextId := t], events + [e], attachments, nextId + 1)
    ensures HistoryExplains(tickets, events) ==> HistoryExplains(tickets[nextId := t], events + [e])
  {
    CreateKeepsTables(tickets, events, attachments, nextId, t, e);
    if HistoryExplains(tickets, events) {
      CreateKeepsHistory(tickets, events, t, e);
    }
  }

  /** Replacing an existing ticket's row (same id) and logging an event on it keeps the tables consistent. */
  lemma UpdateKeepsTables(tickets: map<nat, Ticket>, events: seq<Event>, attachments: seq<Attachment>, nextId: nat, u: Ticket, e: Event)
    requires TablesConsistent(tickets, events, attachments, nextId)
    requires u.id in tickets && e.ticketId == u.id
    ensures TablesConsistent(tickets[u.id := u], events + [e], attachments, nextId)
  {
  }

  /** Recording an attachment in its ticket's directory and logging an event on it keeps the tables consistent. */
  lemma AttachKeepsTables(tickets: map<nat, Ticket>, events: seq<Event>, attachments: seq<Attachment>, nextId: nat, a: Attachment, e: Event)
    requires TablesConsistent(tickets, events, attachments, nextId)
    requires a.ticketId in tickets && a.storedPath.ticketDir == a.ticketId && e.ticketId == a.ticketId
    ensures TablesConsistent(tickets, events + [e], attachments + [a], nextId)
  {
  }

  /** The tickets, events and attachments tables, with the next ticket id SQLite assigns. */
  class Store {
    var tickets: map<nat, Ticket>
    var events: seq<Event>
    var attachments: seq<Attachment>
    var nextId: nat

    /** The structural invariant every store meets, a backfilled legacy one included. */
    ghost predicate Consistent()
      reads this
    {
      TablesConsistent(tickets, events, attachments, nextId)
    }

    /** A consistent store whose event log also explains every ticket: every store the handlers build from empty. */
    ghost predicate Valid()
      reads this
    {
      Consistent() && HistoryExplains(tickets, events)
    }

    constructor ()
      ensures Valid()
      ensures tickets == map[] && events == [] && attachments == [] && nextId == 1
    {
      tickets, events, attachments, nextId := map[], [], [], 1;
    }

    /** `add_event`: appends one event row; earlier events are never touched. */
    method AddEvent(ticketId: nat, actor: string, action: string, fromValue: Option<string>, toValue: Option<string>, now: int)
      modifies this
      ensures events == old(events) + [Event(ticketId, actor, action, fromValue, toValue, now)]
      ensures tickets == old(tickets) && attachments == old(attachments) && nextId == old(nextId)
    {
      events := events + [Event(ticketId, actor, action, fromValue, toValue, now)];
    }

    /**
     * The insert after validation in `new_ticket`: adds an open,
     * unassigned ticket under the next id and appends its "created" event
     * with `requester or "user"` as actor.
     */
    method InsertTicket(f: NewTicketFields, now: int) returns (id: nat)
      requires Consistent()
      requires f.requester != ""
      modifies this
      ensures Consistent()
      ensures old(Valid()) ==> Valid()
      ensures id == old(nextId) && id !in old(tickets)
      ensures tickets == old(tickets)[id := Ticket(id, f.title, f.content, f.requester, None, f.priority, "open", now, now)]
      ensures events == old(events) + [Event(id, f.requester, "created", None, None, now)]
      ensures attachments == old(attachments) && nextId == id + 1
    {
      id := nextId;
      var t := Ticket(id, f.title, f.content, f.requester, None, f.priority, "open", now, now);
      ghost var e := Event(id, f.requester, "created", None, None, now);
      CreateKeepsStore(tickets, events, attachments, nextId, t, e);
      tickets := tickets[id := t];
      nextId := nextId + 1;
      AddEvent(id, Or(f.requester, "user"), "created", None, None, now);
    }

    /**
     * The POST branch of `new_ticket`: a form without a title or requester
     * is rejected with 400 and changes nothing; otherwise the ticket is inserted.
     */
    method NewTicket(form: Form, now: int) returns (r: Result<nat, Error>)
      requires Consistent()
      modifies this
      ensures Consistent()
      ensures old(Valid()) ==> Valid()
      ensures ReadNewTicketForm(form).Failure? ==>
        r == Failure(ReadNewTicketForm(form).error) && unchanged(this)
      ensures ReadNewTicketForm(form).Success? ==>
        var f := ReadNewTicketForm(form).value;
        var id := old(nextId);
        && r == Success(id)
        && id !in old(tickets)
        && tickets == old(tickets)[id := Ticket(id, f.title, f.content, f.requester, None, f.priority, "open", now, now)]
        && events == old(events) + [Event(id, f.requester, "created", None, None, now)]
        && attachments == old(attachments)
        && nextId == id + 1
    {
      var parsed := ReadNewTicketForm(form);
      if parsed.Failure? {
        return Failure(parsed.error);
      }
      ReadNewTicketFormFields(form);
      var id := InsertTicket(parsed.value, now);
      r := Success(id);
    }

    /**
     * The POST branch of `ticket_detail`: overwrites status and assignee
     * with the submitted values (keeping the current ones for missing
     * fields) and always appends one "update" event.
     */
    method UpdateTicket(tid: nat, form: Form, now: int) returns (r: Result<nat, Error>)
      requires Consistent()
      modifies this
      ensures Consistent()
      ensures old(Valid()) ==> Valid()
      ensures tid !in old(tickets) ==> r == Failure(NotFound) && unchanged(this)
      ensures tid in old(tickets) ==>
        var u := ApplyUpdate(old(tickets)[tid], form, now);
        && r == Success(tid)
        && tickets == old(tickets)[tid := u]
        && events == old(events) + [Event(tid, UpdateActor(form), "update", None, Some(Summary(u)), now)]
        && attachments == old(attachments)
        && nextId == old(nextId)
    {
      if tid !in tickets {
        return Failure(NotFound);
      }
      var u := ApplyUpdate(tickets[tid], form, now);
      ghost var e := Event(tid, UpdateActor(form), "update", None, Some(Summary(u)), now);
      UpdateKeepsTables(tickets, events, attachments, nextId, u, e);
      if HistoryExplains(tickets, events) {
        UpdateKeepsHistory(tickets, events, u, e);
      }
      tickets := tickets[tid := u];
      AddEvent(u.id, UpdateActor(form), "update", None, Some(Summary(u)), now);
      r := Success(tid);
    }

    /**
     * `upload_attach`: with a file part and a non-empty filename, records
     * the attachment under `token__(safe_name or 'file')` in the ticket's
     * directory and appends an "attach" event; otherwise changes nothing.
     */
    method UploadAttach(tid: nat, file: Option<string>, safeName: string, token: string, size: nat, now: int)
      returns (r: Result<nat, Error>)
      requires Consistent()
      modifies this
      ensures Consistent()
      ensures old(Valid()) ==> Valid()
      ensures tid !in old(tickets) ==> r == Failure(NotFound) && unchanged(this)
      ensures tid in old(tickets) && !AcceptsUpload(file) ==> r == Success(tid) && unchanged(this)
      ensures tid in old(tickets) && AcceptsUpload(file) ==>
        && r == Success(tid)
        && attachments == old(attachments) + [Attachment(tid, safeName, StoredPath(tid, Leaf(token, safeName)), size, None, now)]
        && events == old(events) + [Event(tid, "user", "attach", None, Some(safeName), now)]
        && tickets == old(tickets)
        && nextId == old(nextId)
    {
      if tid !in tickets {
        return Failure(NotFound);
      }
      if !AcceptsUpload(file) {
        return Success(tid);
      }
      var leaf := Leaf(token, safeName);
      var a := Attachment(tid, safeName, StoredPath(tid, leaf), size, None, now);
      ghost var e := Event(tid, "user", "attach", None, Some(safeName), now);
      AttachKeepsTables(tickets, events, attachments, nextId, a, e);
      if HistoryExplains(tickets, events) {
        OtherEventKeepsHistory(tickets, events, e);
      }
      attachments := attachments + [a];
      AddEvent(tid, "user", "attach", None, Some(safeName), now);
      r := Success(tid);
    }
  }

  // ------------------------------------------------------------------
  // Scenarios
  // ------------------------------------------------------------------

  /** Two uploads of the same file to one ticket under distinct tokens get distinct stored paths in that ticket's directory. */
  method SameNameUploadsDoNotCollide(store: Store, tid: nat, filename: string, safeName: string,
                                     token1: string, token2: string, size1: nat, size2: nat, now: int)
    returns (first: StoredPath, second: StoredPath)
    requires store.Consistent() && tid in store.tickets
    requires filename != "" && |token1| == |token2| && token1 != token2
    modifies store
    ensures store.Consistent()
    ensures old(store.Valid()) ==> store.Valid()
    ensures first != second
    ensures first == StoredPath(tid, Leaf(token1, safeName)) && second == StoredPath(tid, Leaf(token2, safeName))
    ensures store.attachments == old(store.attachments) + [Attachment(tid, safeName, first, size1, None, now)]
                                                        + [Attachment(tid, safeName, second, size2, None, now)]
  {
    first := StoredPath(tid, Leaf(token1, safeName));
    second := StoredPath(tid, Leaf(token2, safeName));
    ghost var before := store.attachments;
    var _ := store.UploadAttach(tid, Some(filename), safeName, token1, size1, now);
    assert store.attachments == before + [Attachment(tid, safeName, first, size1, None, now)];
    var _ := store.UploadAttach(tid, Some(filename), safeName, token2, size2, now);
    assert store.attachments == before + [Attachment(tid, safeName, first, size1, None, now)]
                                        + [Attachment(tid, safeName, second, size2, None, now)];
    LeafInjective(token1, safeName, token2, safeName);
  }
}
