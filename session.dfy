/** The state behind the chat window (`ChatClientGUI` in blob.py) without
    its widgets: the list of servers, the server messages are sent to, the
    username, and one round of the polling loop. */
module Session {
  import opened Wrappers
  import opened Text
  import opened Messages
  import opened Endpoint

  /** The state of one server as the polling loop sees it. */
  datatype ServerView = ServerView(baseUrl: string, name: string, lastId: Value)

  /** One line of the chat log: `[name] time <pseudo> message`. */
  datatype Line = Line(server: string, time: string, pseudo: Option<Value>, message: Option<Value>)

  /** Outcome of "Change server": no servers (an error box, no question asked),
      an answer that is `None` or out of range (nothing happens), or a selection. */
  datatype Choice = NoServers | Ignored | Selected(index: nat)

  /** Outcome of "Send": blank text, no current server, or a post that was
      sent, with its request and whether the server accepted it. */
  datatype SendOutcome = Blank | NoServerSelected | Sent(request: Request, ok: bool)

  function ViewOf(s: Server): ServerView
    reads s
  {
    ServerView(s.baseUrl, s.name, s.lastId)
  }

  /** The reply to, and result of, one `fetch_messages` on a server in state `v`. */
  function FetchOf(v: ServerView, network: Request -> Response): Fetched {
    Fetch(v.lastId, network(FetchRequest(v.baseUrl, v.lastId)))
  }

  /** The state of every server after each has fetched once. */
  function AdvanceAll(views: seq<ServerView>, network: Request -> Response): (r: seq<ServerView>)
    ensures |r| == |views|
    ensures forall i :: 0 <= i < |views| ==>
      r[i].baseUrl == views[i].baseUrl && r[i].name == views[i].name
    ensures forall i :: 0 <= i < |views| ==>
      (MessageList(network(FetchRequest(views[i].baseUrl, views[i].lastId))).None? ==> r[i] == views[i])
    ensures forall i :: 0 <= i < |views| && FetchOf(views[i], network).msgs == [] ==> r[i] == views[i]
    ensures forall i :: 0 <= i < |views| && FetchOf(views[i], network).msgs != [] ==>
      var msgs := FetchOf(views[i], network).msgs;
      r[i].lastId == msgs[|msgs| - 1].id.GetOr(views[i].lastId)
  {
    seq(|views|, i requires 0 <= i < |views| => views[i].(lastId := FetchOf(views[i], network).lastId))
  }

  /** `pretty_ts`: `datetime.fromisoformat(ts).strftime('%H:%M:%S')`, given
      here as `parseIso`, or the raw `ts` when parsing raises. */
  function LineOf(name: string, m: Msg, parseIso: string -> Option<string>): Line {
    Line(name, parseIso(Key(m)).GetOr(Key(m)), m.pseudo, m.message)
  }

  /** The lines of one server: one per fetched message, in order. */
  function ServerLines(name: string, msgs: seq<Msg>, parseIso: string -> Option<string>): (r: seq<Line>)
    ensures |r| == |msgs|
    ensures forall l :: l in r ==> l.server == name
    ensures forall k :: 0 <= k < |msgs| ==>
      r[k].pseudo == msgs[k].pseudo && r[k].message == msgs[k].message
    ensures forall k :: 0 <= k < |msgs| && parseIso(Key(msgs[k])).None? ==> r[k].time == Key(msgs[k])
    ensures forall k :: 0 <= k < |msgs| && parseIso(Key(msgs[k])).Some? ==>
      r[k].time == parseIso(Key(msgs[k])).value
  {
    seq(|msgs|, k requires 0 <= k < |msgs| => LineOf(name, msgs[k], parseIso))
  }

  /** The lines one poll emits: for each server in list order, one line per
      fetched message in the order `fetch_messages` returned them. */
  function TickLines(views: seq<ServerView>, network: Request -> Response,
                     parseIso: string -> Option<string>): seq<Line>
    decreases |views|
  {
    if views == [] then []
    else
      ServerLines(views[0].name, FetchOf(views[0], network).msgs, parseIso)
        + TickLines(views[1..], network, parseIso)
  }

  /** The lines of a poll are grouped by server: those of `a + b` are those
      of `a` followed by those of `b`. */
  lemma {:induction false} TickLinesAppend(a: seq<ServerView>, b: seq<ServerView>,
                                           network: Request -> Response,
                                           parseIso: string -> Option<string>)
    ensures TickLines(a + b, network, parseIso) == TickLines(a, network, parseIso) + TickLines(b, network, parseIso)
    decreases |a|
  {
    if a == [] {
      assert a + b == b;
    } else {
      assert (a + b)[0] == a[0] && (a + b)[1..] == a[1..] + b;
      TickLinesAppend(a[1..], b, network, parseIso);
    }
  }

  /** Polling one more server adds its lines at the end. */
  lemma TickLinesSnoc(views: seq<ServerView>, i: nat, network: Request -> Response,
                      parseIso: string -> Option<string>)
    requires i < |views|
    ensures TickLines(views[..i + 1], network, parseIso) ==
      TickLines(views[..i], network, parseIso) +
      ServerLines(views[i].name, FetchOf(views[i], network).msgs, parseIso)
  {
    var one := [views[i]];
    var own := ServerLines(views[i].name, FetchOf(views[i], network).msgs, parseIso);
    assert one[0] == views[i] && one[1..] == [];
    assert TickLines(one, network, parseIso) == own + TickLines([], network, parseIso);
    assert views[..i + 1] == views[..i] + one;
    TickLinesAppend(views[..i], one, network, parseIso);
    assert own + [] == own;
  }

  /** Every line names the server it came from. */
  lemma {:induction false} TickLinesNameTheirServer(views: seq<ServerView>, network: Request -> Response,
                                                    parseIso: string -> Option<string>)
    ensures forall l :: l in TickLines(views, network, parseIso) ==>
      exists i :: 0 <= i < |views| && views[i].name == l.server
    decreases |views|
  {
    if views != [] {
      TickLinesNameTheirServer(views[1..], network, parseIso);
      forall l | l in TickLines(views, network, parseIso)
        ensures exists i :: 0 <= i < |views| && views[i].name == l.server
      {
        if l in ServerLines(views[0].name, FetchOf(views[0], network).msgs, parseIso) {
          assert views[0].name == l.server;
        } else {
          var i :| 0 <= i < |views[1..]| && views[1..][i].name == l.server;
          assert views[i + 1].name == l.server;
        }
      }
    }
  }

  class ChatClient {
    var servers: seq<Server>
    var current: Server?
    var pseudo: string

    /** The current server, when there is one, is in the list; servers are
        distinct objects, each well formed. */
    ghost predicate Valid()
      reads this, servers
    {
      (current != null ==> current in servers) &&
      (forall i, j :: 0 <= i < j < |servers| ==> servers[i] != servers[j]) &&
      (forall s :: s in servers ==> s.Valid())
    }

    ghost function Views(): (r: seq<ServerView>)
      reads this, servers
      ensures |r| == |servers|
    {
      seq(|servers|, i reads this, servers requires 0 <= i < |servers| => ViewOf(servers[i]))
    }

    constructor ()
      ensures Valid()
      ensures servers == [] && current == null && pseudo == "Guest"
    {
      servers := [];
      current := null;
      pseudo := "Guest";
    }

    /** `add_server`: appends one new server and makes it current only when
        no server was current. */
    method AddServer(url: string, givenName: Option<string>) returns (s: Server)
      requires Valid()
      modifies this
      ensures Valid() && fresh(s)
      ensures servers == old(servers) + [s]
      ensures s.baseUrl == NormalizeUrl(url) && s.lastId == Null
      ensures givenName.Some? && givenName.value != [] ==> s.name == givenName.value
      ensures givenName.None? || givenName.value == [] ==> s.name == s.baseUrl
      ensures current == (if old(current) == null then s else old(current))
      ensures pseudo == old(pseudo)
    {
      s := new Server(url, givenName);
      servers := servers + [s];
      if current == null {
        current := s;
      }
    }

    /** `choose_server_dialog` after the dialog: `idx` is the integer typed
        in, `None` when the dialog was cancelled. */
    method ChooseServer(idx: Option<int>) returns (choice: Choice)
      requires Valid()
      modifies this
      ensures Valid()
      ensures servers == old(servers) && pseudo == old(pseudo)
      ensures servers == [] ==> choice == NoServers
      ensures servers != [] && (idx.None? || !(0 <= idx.value < |servers|)) ==> choice == Ignored
      ensures servers != [] && idx.Some? && 0 <= idx.value < |servers| ==> choice == Selected(idx.value)
      ensures current == if choice.Selected? then servers[choice.index] else old(current)
    {
      if servers == [] {
        return NoServers;
      }
      if idx.Some? && 0 <= idx.value < |servers| {
        current := servers[idx.value];
        return Selected(idx.value);
      }
      return Ignored;
    }

    /** `change_pseudo` after the dialog: a cancelled dialog (`None`) or an
        empty answer keeps the username. */
    method ChangePseudo(answer: Option<string>) returns (changed: bool)
      requires Valid()
      modifies this
      ensures Valid()
      ensures changed <==> answer.Some? && answer.value != []
      ensures pseudo == if changed then answer.value else old(pseudo)
      ensures servers == old(servers) && current == old(current)
    {
      changed := answer.Some? && answer.value != [];
      if changed {
        pseudo := answer.value;
      }
    }

    /** `send_message` with `entry` the text of the input field: blank text
        and a missing current server stop it before any request is made;
        otherwise the stripped text is posted once, under the username. */
    method SendMessage(entry: string, network: Request -> Response) returns (outcome: SendOutcome)
      requires Valid()
      ensures outcome.Blank? <==> forall i :: 0 <= i < |entry| ==> IsSpace(entry[i])
      ensures outcome.NoServerSelected? <==> !outcome.Blank? && current == null
      ensures outcome.Sent? ==>
        current != null &&
        outcome.request == PostRequest(current.baseUrl, current.name, pseudo, Strip(entry)) &&
        outcome.ok == PostSucceeded(network(outcome.request))
    {
      var text := Strip(entry);
      if text == [] {
        return Blank;
      }
      if current == null {
        return NoServerSelected;
      }
      var ok := current.PostMessage(pseudo, text, network);
      return Sent(PostRequest(current.baseUrl, current.name, pseudo, text), ok);
    }

    /** The body of the loop over servers in `poll_loop`: one fetch, then
        one line per fetched message. */
    static method PollServer(s: Server, network: Request -> Response, parseIso: string -> Option<string>)
      returns (lines: seq<Line>)
      modifies s
      ensures var r := FetchOf(old(ViewOf(s)), network);
        lines == ServerLines(s.name, r.msgs, parseIso) && s.lastId == r.lastId
    {
      var msgs := s.FetchMessages(network);
      lines := [];
      for k := 0 to |msgs|
        invariant lines == ServerLines(s.name, msgs[..k], parseIso)
      {
        assert msgs[..k + 1] == msgs[..k] + [msgs[k]];
        lines := lines + [LineOf(s.name, msgs[k], parseIso)];
      }
      assert msgs[..|msgs|] == msgs;
    }

    /** One round of `poll_loop`: every server of a snapshot of the list
        fetches once, in list order, and each fetched message becomes one line. */
    method PollOnce(network: Request -> Response, parseIso: string -> Option<string>)
      returns (lines: seq<Line>)
      requires Valid()
      modifies servers
      ensures Valid()
      ensures lines == TickLines(old(Views()), network, parseIso)
      ensures Views() == AdvanceAll(old(Views()), network)
    {
      var snapshot := servers;
      ghost var before := Views();
      lines := [];
      var i := 0;
      while i < |snapshot|
        invariant 0 <= i <= |snapshot| && snapshot == servers
        invariant lines == TickLines(before[..i], network, parseIso)
        invariant forall j :: 0 <= j < i ==>
          ViewOf(snapshot[j]) == before[j].(lastId := FetchOf(before[j], network).lastId)
        invariant forall j :: i <= j < |snapshot| ==> ViewOf(snapshot[j]) == before[j]
      {
        var s := snapshot[i];
        var more := PollServer(s, network, parseIso);
        lines := lines + more;
        TickLinesSnoc(before, i, network, parseIso);
        i := i + 1;
      }
      assert before[..i] == before;
    }
  }
}
