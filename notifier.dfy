/**
 The optional chat notification at the end of a run: whether to send
 one, and the plain-text summary it carries.
 */
module Notifier {
  import opened Text

  datatype Option<T> = None | Some(value: T)

  /** One webhook request: the URL and the JSON body's "text" field. */
  datatype Post = Post(url: string, text: string)

  const Header: string := "New Datadog Resource Catalog Schema Changes!"

  /**
   The five lines header, "Added:", the added names, "Removed:", the
   removed names, joined with newlines; each list is joined with
   newlines too. It opens with the header.
   */
  function Message(added: seq<string>, removed: seq<string>): (r: string)
    ensures Header <= r
  {
    Join([Header, "Added:", Join(added, '\n'), "Removed:", Join(removed, '\n')], '\n')
  }

  /** The message laid out as one concatenation. */
  lemma MessageLayout(added: seq<string>, removed: seq<string>)
    ensures Message(added, removed)
      == Header + "\n" + "Added:" + "\n" + Join(added, '\n') + "\n" + "Removed:" + "\n" + Join(removed, '\n')
  {
    MessageUnfolds(added, removed);
    Flatten(Header, "Added:", Join(added, '\n'), "Removed:", Join(removed, '\n'));
  }

  lemma Flatten(h: string, a: string, ja: string, r: string, jr: string)
    ensures h + "\n" + (a + "\n" + (ja + "\n" + (r + "\n" + jr)))
      == h + "\n" + a + "\n" + ja + "\n" + r + "\n" + jr
  {
  }

  /** The message as its outer join builds it, one separator at a time. */
  lemma MessageUnfolds(added: seq<string>, removed: seq<string>)
    ensures var ja, jr := Join(added, '\n'), Join(removed, '\n');
      Message(added, removed) == Header + "\n" + ("Added:" + "\n" + (ja + "\n" + ("Removed:" + "\n" + jr)))
  {
    var ja, jr := Join(added, '\n'), Join(removed, '\n');
    var p0 := [Header, "Added:", ja, "Removed:", jr];
    var p1, p2, p3 := p0[1..], p0[1..][1..], p0[1..][1..][1..];
    assert p3[1..] == [jr];
    assert Join(p3, '\n') == "Removed:" + "\n" + jr;
    assert Join(p2, '\n') == ja + "\n" + Join(p3, '\n');
    assert Join(p1, '\n') == "Added:" + "\n" + Join(p2, '\n');
  }

  /** The lines a list of names occupies: an empty list leaves one empty line. */
  function Lines(names: seq<string>): seq<string>
  {
    if names == [] then [""] else names
  }

  predicate OneLine(s: string)
  {
    '\n' !in s
  }

  /**
   Read line by line, the message gives back the header, both labels
   and every name in order, provided no name holds a newline.
   */
  lemma MessageLines(added: seq<string>, removed: seq<string>)
    requires forall k :: 0 <= k < |added| ==> OneLine(added[k])
    requires forall k :: 0 <= k < |removed| ==> OneLine(removed[k])
    ensures Split(Message(added, removed), '\n') == [Header, "Added:"] + Lines(added) + ["Removed:"] + Lines(removed)
  {
    MessageUnfolds(added, removed);
    ListLines(added);
    ListLines(removed);
    FiveLines(Header, "Added:", Join(added, '\n'), "Removed:", Join(removed, '\n'));
    Reassociate(Header, "Added:", Lines(added), "Removed:", Lines(removed));
  }

  lemma Reassociate(h: string, a: string, la: seq<string>, r: string, lr: seq<string>)
    ensures [h] + ([a] + (la + ([r] + lr))) == [h, a] + la + [r] + lr
  {
    assert [h] + [a] == [h, a];
  }

  /** Splitting the five joined parts splits each part in turn. */
  lemma FiveLines(h: string, a: string, ja: string, r: string, jr: string)
    requires OneLine(h) && OneLine(a) && OneLine(r)
    ensures Split(h + "\n" + (a + "\n" + (ja + "\n" + (r + "\n" + jr))), '\n')
      == [h] + ([a] + (Split(ja, '\n') + ([r] + Split(jr, '\n'))))
  {
    var t3 := r + "\n" + jr;
    var t2 := ja + "\n" + t3;
    var t1 := a + "\n" + t2;
    LineThenRest(r, jr);
    SplitAround(ja, t3, '\n');
    LineThenRest(a, t2);
    LineThenRest(h, t1);
  }

  /** A line followed by a newline and more text splits off as one piece. */
  lemma LineThenRest(line: string, rest: string)
    requires OneLine(line)
    ensures Split(line + "\n" + rest, '\n') == [line] + Split(rest, '\n')
  {
    SplitWithoutSeparator(line, '\n');
    SplitAround(line, rest, '\n');
  }

  /** A joined list of one-line names splits back into its lines. */
  lemma ListLines(names: seq<string>)
    requires forall k :: 0 <= k < |names| ==> OneLine(names[k])
    ensures Split(Join(names, '\n'), '\n') == Lines(names)
  {
    if names != [] {
      SplitJoin(names, '\n');
    }
  }

  /**
   `if webhook_url and (added or removed)`: a post goes out only when a
   non-empty webhook URL is configured (an empty one counts as unset) and
   at least one list is non-empty; it goes to that URL and carries the
   message.
   */
  function Notification(webhook: Option<string>, added: seq<string>, removed: seq<string>): (r: Option<Post>)
    ensures r.Some? <==> webhook.Some? && webhook.value != "" && (added != [] || removed != [])
    ensures r.Some? ==> r.value.url == webhook.value && r.value.text == Message(added, removed)
  {
    match webhook
    case Some(url) =>
      if url != "" && (added != [] || removed != []) then Some(Post(url, Message(added, removed))) else None
    case None => None
  }

  /** With nothing added or removed no post is made, whatever the webhook. */
  lemma NoChangesNoNotification(webhook: Option<string>)
    ensures Notification(webhook, [], []) == None
  {
  }
}
