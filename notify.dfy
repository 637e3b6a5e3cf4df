/**
 * The update notification: one message with a detail line per updated unit
 * for the owner, one with the unit names only for every subscriber, sent
 * owner first and then the subscribers in list order.
 */
module Notify {
  import opened Records

  const Header: string := "ICMS-Watcher Update:"

  /** `f"{name}: {mark} - {art} - {status}"` */
  function Detail(name: string, e: Entry): string {
    name + ": " + e.mark + " - " + e.art + " - " + e.status
  }

  /** Each line followed by a newline, in order. */
  function Terminated(lines: seq<string>): string {
    if lines == [] then "" else lines[0] + "\n" + Terminated(lines[1..])
  }

  lemma {:induction false} TerminatedSnoc(lines: seq<string>, line: string)
    ensures Terminated(lines + [line]) == Terminated(lines) + (line + "\n")
  {
    if lines == [] {
      assert [] + [line] == [line];
    } else {
      assert (lines + [line])[1..] == lines[1..] + [line];
      TerminatedSnoc(lines[1..], line);
    }
  }

  function DetailLines(u: Marks): (lines: seq<string>)
    requires Valid(u)
    ensures |lines| == |u.names|
  {
    seq(|u.names|, i requires 0 <= i < |u.names| => Detail(u.names[i], u.entries[u.names[i]]))
  }

  function OwnerText(u: Marks): string
    requires Valid(u)
  {
    Terminated([Header] + DetailLines(u))
  }

  function SubscriberText(u: Marks): string {
    Terminated([Header] + u.names)
  }

  /** The owner message after the first `i` updates. */
  function OwnerTextUpTo(u: Marks, i: nat): string
    requires Valid(u) && i <= |u.names|
  {
    Terminated([Header] + DetailLines(u)[..i])
  }

  function SubscriberTextUpTo(u: Marks, i: nat): string
    requires i <= |u.names|
  {
    Terminated([Header] + u.names[..i])
  }

  lemma ComposeStep(u: Marks, i: nat)
    requires Valid(u) && i < |u.names|
    ensures OwnerTextUpTo(u, i + 1) ==
      OwnerTextUpTo(u, i) + (Detail(u.names[i], u.entries[u.names[i]]) + "\n")
    ensures SubscriberTextUpTo(u, i + 1) == SubscriberTextUpTo(u, i) + (u.names[i] + "\n")
  {
    var d := DetailLines(u);
    assert [Header] + d[..i + 1] == ([Header] + d[..i]) + [d[i]];
    assert [Header] + u.names[..i + 1] == ([Header] + u.names[..i]) + [u.names[i]];
    TerminatedSnoc([Header] + d[..i], d[i]);
    TerminatedSnoc([Header] + u.names[..i], u.names[i]);
  }

  lemma ComposeEnds(u: Marks)
    requires Valid(u)
    ensures OwnerTextUpTo(u, 0) == Header + "\n"
    ensures SubscriberTextUpTo(u, 0) == Header + "\n"
    ensures OwnerTextUpTo(u, |u.names|) == OwnerText(u)
    ensures SubscriberTextUpTo(u, |u.names|) == SubscriberText(u)
  {
    assert DetailLines(u)[..|u.names|] == DetailLines(u);
    assert u.names[..|u.names|] == u.names;
    assert ([Header] + DetailLines(u)[..0]) == [Header];
    assert ([Header] + u.names[..0]) == [Header];
    assert [Header][1..] == [];
    assert Terminated([Header]) == Header + "\n" + Terminated([]);
    assert Header + "\n" + "" == Header + "\n";
  }

  /** The message-building loop of the watcher, which extends both texts per update. */
  method Compose(u: Marks) returns (ownerMsg: string, subscriberMsg: string)
    requires Valid(u)
    ensures ownerMsg == OwnerText(u)
    ensures subscriberMsg == SubscriberText(u)
  {
    ComposeEnds(u);
    ownerMsg := Header + "\n";
    subscriberMsg := Header + "\n";
    var i := 0;
    while i < |u.names|
      invariant 0 <= i <= |u.names|
      invariant ownerMsg == OwnerTextUpTo(u, i)
      invariant subscriberMsg == SubscriberTextUpTo(u, i)
    {
      var key := u.names[i];
      var e := u.entries[key];
      ComposeStep(u, i);
      ownerMsg := ownerMsg + (Detail(key, e) + "\n");
      subscriberMsg := subscriberMsg + (key + "\n");
      i := i + 1;
    }
  }

  /** Index of the first newline in `s`, or `|s|` when there is none. */
  function LineEnd(s: string): (k: nat)
    ensures k <= |s|
    ensures k < |s| ==> s[k] == '\n'
    ensures forall j :: 0 <= j < k ==> s[j] != '\n'
  {
    if s == [] || s[0] == '\n' then 0 else 1 + LineEnd(s[1..])
  }

  /** The lines of a text; a newline ends a line. */
  function Lines(s: string): seq<string>
    decreases |s|
  {
    if s == [] then []
    else
      var k := LineEnd(s);
      if k == |s| then [s] else [s[..k]] + Lines(s[k + 1..])
  }

  predicate OneLine(s: string) {
    forall i :: 0 <= i < |s| ==> s[i] != '\n'
  }

  /** Splitting newline-terminated lines gives the lines back. */
  lemma {:induction false} LinesOfTerminated(lines: seq<string>)
    requires forall i :: 0 <= i < |lines| ==> OneLine(lines[i])
    ensures Lines(Terminated(lines)) == lines
  {
    if lines != [] {
      var x := lines[0];
      var rest := Terminated(lines[1..]);
      var s := x + "\n" + rest;
      assert Terminated(lines) == s;
      LineEndBeforeNewline(x, rest);
      assert s[..|x|] == x;
      assert s[|x| + 1..] == rest;
      LinesOfTerminated(lines[1..]);
    }
  }

  lemma {:induction false} LineEndBeforeNewline(x: string, rest: string)
    requires OneLine(x)
    ensures LineEnd(x + "\n" + rest) == |x|
    decreases |x|
  {
    if x != [] {
      assert (x + "\n" + rest)[1..] == x[1..] + "\n" + rest;
      LineEndBeforeNewline(x[1..], rest);
    }
  }

  /**
   * When no name or field holds a newline, the owner message is the header
   * line followed by exactly one detail line per update, in update order.
   */
  lemma OwnerTextLines(u: Marks)
    requires Valid(u)
    requires forall i :: 0 <= i < |u.names| ==> OneLine(u.names[i])
    requires forall n :: n in u.entries ==>
      OneLine(u.entries[n].mark) && OneLine(u.entries[n].art) && OneLine(u.entries[n].status)
    ensures Lines(OwnerText(u)) == [Header] + DetailLines(u)
    ensures |Lines(OwnerText(u))| == 1 + |u.names|
  {
    var lines := [Header] + DetailLines(u);
    forall i | 0 <= i < |lines| ensures OneLine(lines[i]) {
      if i > 0 {
        var n := u.names[i - 1];
        assert n in u.entries;
        assert lines[i] == Detail(n, u.entries[n]);
      }
    }
    LinesOfTerminated(lines);
  }

  /**
   * When no name holds a newline, the subscriber message is the header line
   * followed by exactly the updated names: no grade detail.
   */
  lemma SubscriberTextLines(u: Marks)
    requires forall i :: 0 <= i < |u.names| ==> OneLine(u.names[i])
    ensures Lines(SubscriberText(u)) == [Header] + u.names
  {
    var lines := [Header] + u.names;
    assert forall i :: 1 <= i < |lines| ==> lines[i] == u.names[i - 1];
    LinesOfTerminated(lines);
  }

  datatype Message = Message(recipient: string, text: string)

  function SubscriberSends(subscribers: seq<string>, text: string): (ms: seq<Message>)
    ensures |ms| == |subscribers|
    ensures forall i :: 0 <= i < |subscribers| ==> ms[i] == Message(subscribers[i], text)
  {
    if subscribers == [] then []
    else [Message(subscribers[0], text)] + SubscriberSends(subscribers[1..], text)
  }

  /** The sends of one update: the owner first, then each subscriber in order. */
  function FanOut(owner: string, subscribers: seq<string>, ownerText: string, subscriberText: string): (ms: seq<Message>)
    ensures |ms| == 1 + |subscribers|
    ensures ms[0] == Message(owner, ownerText)
    ensures forall i :: 0 <= i < |subscribers| ==> ms[i + 1] == Message(subscribers[i], subscriberText)
  {
    [Message(owner, ownerText)] + SubscriberSends(subscribers, subscriberText)
  }

  /** The messaging transport, as the list of messages it has been given. */
  class Outbox {
    var sent: seq<Message>

    constructor ()
      ensures sent == []
    {
      sent := [];
    }

    method Send(recipient: string, text: string)
      modifies this
      ensures sent == old(sent) + [Message(recipient, text)]
    {
      sent := sent + [Message(recipient, text)];
    }
  }

  lemma FanOutSnoc(owner: string, subscribers: seq<string>, i: nat, ownerText: string, subscriberText: string)
    requires i < |subscribers|
    ensures FanOut(owner, subscribers[..i + 1], ownerText, subscriberText)
      == FanOut(owner, subscribers[..i], ownerText, subscriberText) + [Message(subscribers[i], subscriberText)]
  {
  }

  method Broadcast(outbox: Outbox, owner: string, subscribers: seq<string>, ownerText: string, subscriberText: string)
    modifies outbox
    ensures outbox.sent == old(outbox.sent) + FanOut(owner, subscribers, ownerText, subscriberText)
  {
    ghost var before := outbox.sent;
    outbox.Send(owner, ownerText);
    assert outbox.sent == before + FanOut(owner, subscribers[..0], ownerText, subscriberText);
    for i := 0 to |subscribers|
      invariant outbox.sent == before + FanOut(owner, subscribers[..i], ownerText, subscriberText)
    {
      FanOutSnoc(owner, subscribers, i, ownerText, subscriberText);
      ghost var sends := FanOut(owner, subscribers[..i], ownerText, subscriberText);
      outbox.Send(subscribers[i], subscriberText);
      assert outbox.sent == before + (sends + [Message(subscribers[i], subscriberText)]);
    }
    assert subscribers[..|subscribers|] == subscribers;
  }
}
