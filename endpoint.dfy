/** One chat server (`Server` in blob.py): its normalised address, its
    display name, the watermark `last_id`, and the two HTTP calls it makes.
    The HTTP library is not modelled: a call is a `Request` value handed to a
    `network` function, which answers with an abstract `Response`. */
module Endpoint {
  import opened Wrappers
  import opened Text
  import opened Messages

  /** An element of the `messages` array: a JSON object, or anything else. */
  datatype Item = Object(msg: Msg) | NonObject

  /** The `messages` key of a reply: missing, an array, or another JSON value. */
  datatype MessagesField = Absent | List(items: seq<Item>) | NonList

  /** The decoded body of a reply: not JSON at all, JSON but not an object,
      or an object with the two keys the client looks at. */
  datatype Body = NotJson | NonObjectBody | ObjectBody(success: Option<Value>, messages: MessagesField)

  /** What `requests` gives back: an exception (connection failure, timeout),
      or a reply with its `r.ok` status and its body. */
  datatype Response = TransportError | Reply(ok: bool, body: Body)

  /** The two requests a server sends: the form of `post_message.php` and
      the query of `get_messages.php`, whose `since_id` parameter may be absent. */
  datatype Request =
    | Post(url: string, pseudo: string, message: string, server: string)
    | Get(url: string, sinceId: Option<Value>)

  predicate IsSlash(c: char) {
    c == '/'
  }

  /** `base_url.rstrip('/') + '/'`. */
  function NormalizeUrl(url: string): (r: string)
    ensures |r| > 0 && r[|r| - 1] == '/'
    ensures |r| == 1 || r[|r| - 2] != '/'
    ensures |r| - 1 <= |url| && r[..|r| - 1] == url[..|r| - 1]
    ensures forall i :: |r| - 1 <= i < |url| ==> url[i] == '/'
  {
    TrimEnd(url, IsSlash) + "/"
  }

  lemma NormalizeUrlIdempotent(url: string)
    ensures NormalizeUrl(NormalizeUrl(url)) == NormalizeUrl(url)
  {
  }

  /** The result rule of `post_message`: `r.ok and r.json().get('success', False)`,
      with every exception turned into `False`. The caller tests the result
      with `if not ok`, so a truthy `success` counts as success. */
  function PostSucceeded(resp: Response): (ok: bool)
    ensures ok <==> resp.Reply? && resp.ok && resp.body.ObjectBody? &&
                    resp.body.success.Some? && Truthy(resp.body.success.value)
    ensures resp.TransportError? || (resp.Reply? && !resp.ok) ==> !ok
  {
    match resp
    case TransportError => false
    case Reply(status, body) =>
      status &&
      match body
      case ObjectBody(success, _) => Truthy(success.GetOr(Bool(false)))
      case _ => false
  }

  /** The list `fetch_messages` goes on to sort, or `None` where one of its
      steps raises: a transport error, a non-OK status (an early `return []`,
      with the same effect), a body that is not JSON or not an object,
      a `messages` value that is not a list, or an element that is not an
      object (the sort key calls `m.get` on every element). */
  function MessageList(resp: Response): (r: Option<seq<Msg>>)
    ensures r.Some? <==>
      resp.Reply? && resp.ok && resp.body.ObjectBody? && !resp.body.messages.NonList? &&
      (resp.body.messages.List? ==>
        forall i :: 0 <= i < |resp.body.messages.items| ==> resp.body.messages.items[i].Object?)
    ensures r.Some? && resp.body.messages.Absent? ==> r.value == []
    ensures r.Some? && resp.body.messages.List? ==>
      |r.value| == |resp.body.messages.items| &&
      forall i :: 0 <= i < |r.value| ==> resp.body.messages.items[i] == Object(r.value[i])
  {
    match resp
    case TransportError => None
    case Reply(ok, body) =>
      if !ok then None
      else
        match body
        case ObjectBody(_, Absent) => Some([])
        case ObjectBody(_, List(items)) =>
          if forall i :: 0 <= i < |items| ==> items[i].Object? then
            Some(seq(|items|, i requires 0 <= i < |items| => items[i].msg))
          else None
        case _ => None
  }

  /** The query `fetch_messages` sends: `since_id` only when `last_id` is truthy. */
  function FetchRequest(baseUrl: string, lastId: Value): (r: Request)
    ensures r.Get? && r.url == baseUrl + "get_messages.php"
    ensures r.sinceId.Some? <==> Truthy(lastId)
    ensures r.sinceId.Some? ==> r.sinceId.value == lastId
  {
    Get(baseUrl + "get_messages.php", if Truthy(lastId) then Some(lastId) else None)
  }

  /** The form `post_message` sends. */
  function PostRequest(baseUrl: string, name: string, pseudo: string, message: string): Request {
    Post(baseUrl + "post_message.php", pseudo, message, name)
  }

  /** What a call of `fetch_messages` returns, and the watermark it leaves. */
  datatype Fetched = Fetched(msgs: seq<Msg>, lastId: Value)

  /** `fetch_messages` as a function of the watermark and the reply. */
  function Fetch(lastId: Value, resp: Response): (r: Fetched)
    ensures MessageList(resp).None? ==> r == Fetched([], lastId)
    ensures MessageList(resp).Some? ==>
      var list := MessageList(resp).value;
      Sorted(r.msgs) && SameKeyOrder(r.msgs, list) && multiset(r.msgs) == multiset(list) &&
      (r.msgs == [] <==> list == [])
    ensures r.msgs == [] ==> r.lastId == lastId
    ensures r.msgs != [] ==> r.lastId == r.msgs[|r.msgs| - 1].id.GetOr(lastId)
  {
    match MessageList(resp)
    case None => Fetched([], lastId)
    case Some(list) =>
      var sorted := SortByTs(list);
      assert |sorted| == |multiset(sorted)| == |multiset(list)| == |list|;
      Fetched(sorted, if sorted == [] then lastId else sorted[|sorted| - 1].id.GetOr(lastId))
  }

  /** After a successful fetch that returned messages, the watermark is the
      `id` of a message whose `ts` is not smaller than any other returned. */
  lemma WatermarkFromLatest(lastId: Value, resp: Response)
    requires Fetch(lastId, resp).msgs != []
    ensures var r := Fetch(lastId, resp);
      exists j :: 0 <= j < |r.msgs| &&
        (forall m :: m in r.msgs ==> LexLe(Key(m), Key(r.msgs[j]))) &&
        r.lastId == r.msgs[j].id.GetOr(lastId)
  {
    var r := Fetch(lastId, resp);
    var last := |r.msgs| - 1;
    forall m | m in r.msgs ensures LexLe(Key(m), Key(r.msgs[last])) {
      var i :| 0 <= i < |r.msgs| && r.msgs[i] == m;
      SortedLastIsGreatest(r.msgs, i);
    }
  }

  /** A reply listing two message objects decodes to those two messages. */
  lemma DecodeTwo(m1: Msg, m2: Msg)
    ensures MessageList(Reply(true, ObjectBody(None, List([Object(m1), Object(m2)])))) == Some([m1, m2])
  {
    var items := [Object(m1), Object(m2)];
    var r := MessageList(Reply(true, ObjectBody(None, List(items))));
    assert forall i :: 0 <= i < |items| ==> items[i].Object?;
    assert |r.value| == 2 && r.value[0] == m1 && r.value[1] == m2;
    assert r.value == [m1, m2];
  }

  /** A fresh server with `last_id = None` asks for all messages; given two
      messages out of order, it returns them by `ts` and takes the `id` of
      the later one as its watermark. */
  lemma FreshFetchExample(baseUrl: string, m1: Msg, m2: Msg)
    requires m1.id == Some(Int(1)) && m2.id == Some(Int(2))
    requires !LexLe(Key(m1), Key(m2))
    ensures FetchRequest(baseUrl, Null).sinceId == None
    ensures Fetch(Null, Reply(true, ObjectBody(None, List([Object(m1), Object(m2)])))) == Fetched([m2, m1], Int(1))
  {
    DecodeTwo(m1, m2);
    SortTwo(m1, m2);
  }

  /** The timestamps of that example are out of order as strings. */
  lemma ExampleTimestamps()
    ensures !LexLe("2024-01-01T10:00:00", "2024-01-01T09:00:00")
  {
    LexLeCommonPrefix("2024-01-01T", "10:00:00", "09:00:00");
    assert "2024-01-01T10:00:00" == "2024-01-01T" + "10:00:00";
    assert "2024-01-01T09:00:00" == "2024-01-01T" + "09:00:00";
  }

  /** The watermark is not monotone: it becomes the `id` of the latest
      message of the latest reply, even when that message is older than the
      one the previous watermark came from. */
  lemma WatermarkCanMoveBack(newer: Msg, older: Msg)
    requires newer.id == Some(Int(7)) && older.id == Some(Int(3))
    requires LexLe(Key(older), Key(newer)) && Key(older) != Key(newer)
    ensures Fetch(Null, Reply(true, ObjectBody(None, List([Object(newer)])))).lastId == Int(7)
    ensures Fetch(Int(7), Reply(true, ObjectBody(None, List([Object(older)])))).lastId == Int(3)
  {
  }

  /** A reply with a single message object returns it and takes its `id`. */
  lemma FetchOne(lastId: Value, m: Msg)
    ensures Fetch(lastId, Reply(true, ObjectBody(None, List([Object(m)])))) == Fetched([m], m.id.GetOr(lastId))
  {
  }

  class Server {
    const baseUrl: string
    const name: string
    var lastId: Value

    /** The address ends in exactly one `/` and is already normal; the name is never empty. */
    ghost predicate Valid() {
      NormalizeUrl(baseUrl) == baseUrl && baseUrl[|baseUrl| - 1] == '/' && name != []
    }

    /** `Server(base_url, name)`: `name` falls back to the address when it
        is `None` or empty; no watermark yet. */
    constructor (url: string, givenName: Option<string>)
      ensures baseUrl == NormalizeUrl(url)
      ensures givenName.Some? && givenName.value != [] ==> name == givenName.value
      ensures givenName.None? || givenName.value == [] ==> name == baseUrl
      ensures lastId == Null
      ensures Valid()
    {
      baseUrl := NormalizeUrl(url);
      name := if givenName.Some? && givenName.value != [] then givenName.value else NormalizeUrl(url);
      lastId := Null;
      new;
      NormalizeUrlIdempotent(url);
    }

    /** `post_message`: sends the form once and reports the result rule. */
    method PostMessage(pseudo: string, message: string, network: Request -> Response) returns (ok: bool)
      ensures ok == PostSucceeded(network(PostRequest(baseUrl, name, pseudo, message)))
    {
      var response := network(PostRequest(baseUrl, name, pseudo, message));
      ok := PostSucceeded(response);
    }

    /** `fetch_messages`: sorts the list in place and moves the watermark to
        the `id` of its last message, keeping it when that message has no `id`. */
    method FetchMessages(network: Request -> Response) returns (msgs: seq<Msg>)
      modifies this
      ensures var r := Fetch(old(lastId), network(FetchRequest(baseUrl, old(lastId))));
        msgs == r.msgs && lastId == r.lastId
    {
      var response := network(FetchRequest(baseUrl, lastId));
      var decoded := MessageList(response);
      if decoded.None? {
        return [];
      }
      var list := decoded.value;
      var a := new Msg[|list|](i requires 0 <= i < |list| => list[i]);
      assert a[..] == list;
      SortInPlace(a);
      msgs := a[..];
      if msgs != [] {
        lastId := msgs[|msgs| - 1].id.GetOr(lastId);
      }
    }
  }
}
