/**
 * Scheduled messages and WhatsApp links (message-controller.js): the stored
 * list of scheduled messages, the checks of the scheduling form, the timer
 * guard and the `wa.me` link. The clock, date parsing and
 * `encodeURIComponent` are foreign: their results are parameters.
 */
module Messages {
  import opened Wrappers
  import opened Text
  import opened Contacts
  import opened Groups

  datatype ScheduledMessage = ScheduledMessage(id: int, contactId: int, contactName: Option<string>,
                                               contactPhone: Option<string>, message: string,
                                               scheduledTime: int)

  /** Every stored message except those with this id, in order. */
  function WithoutId(ms: seq<ScheduledMessage>, id: int): (r: seq<ScheduledMessage>)
  {
    if ms == [] then []
    else (if ms[0].id == id then [] else [ms[0]]) + WithoutId(ms[1..], id)
  }

  /** Removal drops exactly the messages with that id and keeps the rest in order. */
  lemma {:induction false} WithoutIdSpec(ms: seq<ScheduledMessage>, id: int)
    ensures forall m :: m in WithoutId(ms, id) <==> m in ms && m.id != id
    ensures Subsequence(WithoutId(ms, id), ms)
  {
    if ms != [] {
      WithoutIdSpec(ms[1..], id);
      assert ms == [ms[0]] + ms[1..];
      var r := WithoutId(ms, id);
      if ms[0].id != id {
        assert r[0] == ms[0] && r[1..] == WithoutId(ms[1..], id);
      } else {
        assert r == WithoutId(ms[1..], id);
        if r != [] {
          assert Subsequence(r, ms[1..]);
        }
      }
    }
  }

  /** Removing twice is removing once. */
  lemma {:induction false} WithoutIdIdempotent(ms: seq<ScheduledMessage>, id: int)
    ensures WithoutId(WithoutId(ms, id), id) == WithoutId(ms, id)
  {
    if ms != [] {
      WithoutIdIdempotent(ms[1..], id);
      var head := if ms[0].id == id then [] else [ms[0]];
      assert WithoutId(ms, id) == head + WithoutId(ms[1..], id);
      WithoutIdAppend(head, WithoutId(ms[1..], id), id);
      assert WithoutId(head, id) == head by {
        if head != [] {
          assert head[1..] == [];
        }
      }
    }
  }

  lemma {:induction false} WithoutIdAppend(a: seq<ScheduledMessage>, b: seq<ScheduledMessage>, id: int)
    ensures WithoutId(a + b, id) == WithoutId(a, id) + WithoutId(b, id)
  {
    if a != [] {
      assert (a + b)[0] == a[0] && (a + b)[1..] == a[1..] + b;
      WithoutIdAppend(a[1..], b, id);
    } else {
      assert a + b == b;
    }
  }

  /** How the scheduling form ends. */
  datatype SendOutcome =
    | NoContactSelected | EmptyText | NoDateTime | UnknownContact | InvalidDate | PastDate
    | Scheduled(message: ScheduledMessage)

  /**
   * `sendMessage`: `selected` is the parsed contact id (`None` for NaN),
   * `parsed` the scheduled instant (`None` for an invalid date), `now` the
   * clock at the check and `stamp` the clock reading used as id.
   */
  function SendCheck(cs: seq<Contact>, selected: Option<int>, rawText: string, date: string, time: string,
                     parsed: Option<int>, now: int, stamp: int): SendOutcome
  {
    var text := Trim(rawText);
    if selected.None? || selected.value == 0 then NoContactSelected
    else if text == "" then EmptyText
    else if date == "" || time == "" then NoDateTime
    else
      match FindContact(cs, selected.value)
      case None => UnknownContact
      case Some(c) =>
        if parsed.None? then InvalidDate
        else if parsed.value < now then PastDate
        else Scheduled(ScheduledMessage(stamp, selected.value, c.name, c.phone, text, parsed.value))
  }

  /** The form names a contact of the list, has text, and has a date and a time. */
  predicate Passes(cs: seq<Contact>, selected: Option<int>, rawText: string, date: string, time: string) {
    && selected.Some? && selected.value != 0 && !Blank(rawText) && date != "" && time != ""
    && exists c :: c in cs && c.id == selected.value
  }

  /** The checks run in the order contact, text, date/time, lookup, validity, past. */
  lemma SendCheckOrder(cs: seq<Contact>, selected: Option<int>, rawText: string, date: string, time: string,
                       parsed: Option<int>, now: int, stamp: int)
    ensures var r := SendCheck(cs, selected, rawText, date, time, parsed, now, stamp);
      && (r == NoContactSelected <==> selected.None? || selected.value == 0)
      && (r == EmptyText <==> selected.Some? && selected.value != 0 && Blank(rawText))
      && (r == NoDateTime <==> selected.Some? && selected.value != 0 && !Blank(rawText) && (date == "" || time == ""))
      && (r == UnknownContact <==>
            && selected.Some? && selected.value != 0 && !Blank(rawText)
            && date != "" && time != "" && forall c :: c in cs ==> c.id != selected.value)
      && (r == InvalidDate <==> Passes(cs, selected, rawText, date, time) && parsed.None?)
      && (r == PastDate <==> Passes(cs, selected, rawText, date, time) && parsed.Some? && parsed.value < now)
      && (r.Scheduled? <==> Passes(cs, selected, rawText, date, time) && parsed.Some? && now <= parsed.value)
  {
    TrimEmptyIffBlank(rawText);
  }

  /**
   * A scheduled record copies the trimmed text, the instant, and the name and
   * phone of the contact found for the selected id (a contact of the list).
   */
  lemma ScheduledRecord(cs: seq<Contact>, selected: Option<int>, rawText: string, date: string, time: string,
                        parsed: Option<int>, now: int, stamp: int)
    requires SendCheck(cs, selected, rawText, date, time, parsed, now, stamp).Scheduled?
    ensures var m := SendCheck(cs, selected, rawText, date, time, parsed, now, stamp).message;
      var found := FindContact(cs, m.contactId);
      && m.id == stamp && selected == Some(m.contactId) && m.message == Trim(rawText) && m.message != ""
      && parsed == Some(m.scheduledTime) && now <= m.scheduledTime
      && found.Some? && found.value in cs && found.value.name == m.contactName && found.value.phone == m.contactPhone
  {
    assert selected.Some? && selected.value != 0;
    assert Trim(rawText) != "";
    var found := FindContact(cs, selected.value);
    assert found.Some?;
    assert parsed.Some? && now <= parsed.value;
    var c := found.value;
    assert SendCheck(cs, selected, rawText, date, time, parsed, now, stamp)
      == Scheduled(ScheduledMessage(stamp, selected.value, c.name, c.phone, Trim(rawText), parsed.value));
  }

  /** `scheduleMessageAlert`: the timer delay, or `None` when no timer is set. */
  function AlertDelay(scheduledTime: int, now: int): Option<int> {
    var delay := scheduledTime - now;
    if delay <= 0 then None else Some(delay)
  }

  lemma AlertDelaySpec(scheduledTime: int, now: int)
    ensures AlertDelay(scheduledTime, now).None? <==> scheduledTime <= now
    ensures AlertDelay(scheduledTime, now).Some? ==>
      AlertDelay(scheduledTime, now).value > 0 && now + AlertDelay(scheduledTime, now).value == scheduledTime
  {
  }

  const WaPrefix: string := "https://wa.me/"
  const WaQuery: string := "/?text="

  /** The link for a phone and an already-encoded text; `None` when the phone has no digit. */
  function WhatsAppLink(phone: string, encoded: string): Option<string> {
    var number := Digits(phone);
    if number == "" then None else Some(WaPrefix + number + WaQuery + encoded)
  }

  /** The leading run of digits of a string. */
  function LeadingDigits(s: string): (r: string)
    ensures AllDigits(r) && |r| <= |s| && r == s[..|r|]
  {
    if s == [] || !IsDigit(s[0]) then [] else [s[0]] + LeadingDigits(s[1..])
  }

  lemma {:induction false} LeadingDigitsOf(d: string, rest: string)
    requires AllDigits(d) && (rest == [] || !IsDigit(rest[0]))
    ensures LeadingDigits(d + rest) == d
  {
    if d != [] {
      assert (d + rest)[0] == d[0] && (d + rest)[1..] == d[1..] + rest;
      LeadingDigitsOf(d[1..], rest);
    } else {
      assert d + rest == rest;
    }
  }

  /**
   * The number in a link is the phone's digits and nothing else, and it can
   * be read back from the link; a phone without digits yields no link.
   */
  lemma WhatsAppLinkSpec(phone: string, encoded: string)
    ensures WhatsAppLink(phone, encoded).None? <==> Digits(phone) == ""
    ensures WhatsAppLink(phone, encoded).Some? ==>
      var link := WhatsAppLink(phone, encoded).value;
      && link[..|WaPrefix|] == WaPrefix
      && LeadingDigits(link[|WaPrefix|..]) == Digits(phone)
      && link[|WaPrefix| + |Digits(phone)|..] == WaQuery + encoded
  {
    var number := Digits(phone);
    if number != "" {
      var link := WaPrefix + number + WaQuery + encoded;
      assert link[|WaPrefix|..] == number + (WaQuery + encoded);
      LeadingDigitsOf(number, WaQuery + encoded);
      assert link[|WaPrefix| + |number|..] == WaQuery + encoded;
    }
  }

  /**
   * The link the alert timer offers: unlike `sendWhatsAppMessage`, the timer
   * builds it without checking that the phone has a digit.
   */
  function AlertLink(phone: string, encoded: string): string {
    WaPrefix + Digits(phone) + WaQuery + encoded
  }

  /** The timer's link agrees with the guarded one whenever the phone has a digit, and has no number otherwise. */
  lemma AlertLinkAgrees(phone: string, encoded: string)
    ensures Digits(phone) != "" ==> WhatsAppLink(phone, encoded) == Some(AlertLink(phone, encoded))
    ensures Digits(phone) == "" ==> WhatsAppLink(phone, encoded).None? && AlertLink(phone, encoded) == WaPrefix + WaQuery + encoded
  {
  }

  /** How `sendWhatsAppMessage` ends. */
  datatype WhatsAppOutcome = WaEmptyText | WaNoPhone | WaBadNumber | WaOpen(link: string)

  /** The contact `current` names, as `find` returns it. */
  function CurrentContact(cs: seq<Contact>, current: Option<int>): Option<Contact> {
    if current.Some? then FindContact(cs, current.value) else None
  }

  /** `sendWhatsAppMessage`; `encoded` is the encoding of the trimmed text. */
  function SendWhatsApp(cs: seq<Contact>, current: Option<int>, rawText: string, encoded: string): WhatsAppOutcome {
    if Trim(rawText) == "" then WaEmptyText
    else
      var found := CurrentContact(cs, current);
      if found.None? || !Truthy(found.value.phone) then WaNoPhone
      else
        match WhatsAppLink(found.value.phone.value, encoded)
        case None => WaBadNumber
        case Some(link) => WaOpen(link)
  }

  /**
   * Blank text is refused first; then a missing contact or phone; then a phone
   * without digits; every other request opens the link of the contact's digits.
   */
  lemma SendWhatsAppSpec(cs: seq<Contact>, current: Option<int>, rawText: string, encoded: string)
    ensures var r := SendWhatsApp(cs, current, rawText, encoded);
      var c := CurrentContact(cs, current);
      && (r == WaEmptyText <==> Blank(rawText))
      && (r == WaNoPhone <==> !Blank(rawText) && (c.None? || !Truthy(c.value.phone)))
      && (r == WaBadNumber <==> !Blank(rawText) && c.Some? && Truthy(c.value.phone) && Digits(c.value.phone.value) == "")
      && (!Blank(rawText) && c.Some? && Truthy(c.value.phone) && Digits(c.value.phone.value) != "" ==>
            r == WaOpen(WaPrefix + Digits(c.value.phone.value) + WaQuery + encoded))
    ensures SendWhatsApp(cs, current, rawText, encoded).WaOpen? ==>
      exists c :: c in cs && Some(c.id) == current && Truthy(c.phone)
        && SendWhatsApp(cs, current, rawText, encoded).link == WaPrefix + Digits(c.phone.value) + WaQuery + encoded
        && Digits(c.phone.value) != ""
  {
    TrimEmptyIffBlank(rawText);
    if SendWhatsApp(cs, current, rawText, encoded).WaOpen? {
      var c := FindContact(cs, current.value).value;
      assert c in cs;
    }
  }

  /** The stored list of scheduled messages. */
  class MessageStore {
    var messages: seq<ScheduledMessage>

    constructor ()
      ensures messages == []
    {
      messages := [];
    }

    /** `saveScheduledMessage`: one record appended at the end. */
    method Save(m: ScheduledMessage)
      modifies this
      ensures messages == old(messages) + [m]
    {
      messages := messages + [m];
    }

    /** `removeScheduledMessage`. */
    method Remove(id: int)
      modifies this
      ensures messages == WithoutId(old(messages), id)
    {
      var ms := messages;
      var kept: seq<ScheduledMessage> := [];
      var i := 0;
      while i < |ms|
        invariant 0 <= i <= |ms|
        invariant kept == WithoutId(ms[..i], id)
      {
        WithoutIdAppend(ms[..i], [ms[i]], id);
        assert ms[..i + 1] == ms[..i] + [ms[i]];
        if ms[i].id != id {
          kept := kept + [ms[i]];
        }
        i := i + 1;
      }
      assert ms[..i] == ms;
      messages := kept;
    }

    /**
     * The alert timer firing for `m`: when its contact still exists the link
     * is offered and the record is removed; otherwise nothing happens.
     * `encoded` is the encoding of the message text.
     */
    method FireAlert(cs: seq<Contact>, m: ScheduledMessage, encoded: string) returns (link: Option<string>)
      modifies this
      ensures link.Some? <==> exists c :: c in cs && c.id == m.contactId
      ensures link.Some? ==>
        && link.value == AlertLink(FindContact(cs, m.contactId).value.phone.GetOr(""), encoded)
        && messages == WithoutId(old(messages), m.id)
      ensures link.None? ==> messages == old(messages)
    {
      var found := FindContact(cs, m.contactId);
      if found.Some? {
        link := Some(AlertLink(found.value.phone.GetOr(""), encoded));
        Remove(m.id);
      } else {
        link := None;
      }
    }

    /** `sendMessage`: only a form that passes every check stores a record. */
    method SendMessage(cs: seq<Contact>, selected: Option<int>, rawText: string, date: string, time: string,
                       parsed: Option<int>, now: int, stamp: int) returns (outcome: SendOutcome)
      modifies this
      ensures outcome == SendCheck(cs, selected, rawText, date, time, parsed, now, stamp)
      ensures outcome.Scheduled? ==> messages == old(messages) + [outcome.message]
      ensures !outcome.Scheduled? ==> messages == old(messages)
    {
      outcome := SendCheck(cs, selected, rawText, date, time, parsed, now, stamp);
      if outcome.Scheduled? {
        Save(outcome.message);
      }
    }
  }
}
