# Blob chat client — a Dafny model

Blob is a small IRC-like chat client (`blob.py`). It talks to one or more PHP
chat servers over HTTP. Each server is an address plus a display name. It
posts messages with `post_message.php` and polls `get_messages.php`. It keeps
a watermark, `last_id`, which it sends back as `since_id`. The watermark is
the `id` of the last message, by `ts`, of the latest non-empty reply. It is
kept when that message has no `id`. The window (`ChatClientGUI`) holds three things:
the list of servers, the current server that messages are sent to, and the
username. A background loop polls every server in turn. It writes one log
line per fetched message.

This project models that core without Tkinter and without HTTP:

- `Text` (`text.dfy`): the pieces of Python's `str` that the client relies
  on.
  - `str.isspace` and `str.strip()`.
  - `rstrip('/')`.
  - The ordering `<=` on strings, with the lemmas that make it a total order.
- `Messages` (`messages.dfy`):
  - the JSON values the client inspects, with Python truthiness;
  - a message object;
  - the sort of `fetch_messages`, specified as a stable sort by the raw
    `ts` string (a missing `ts` sorts as `''`), defined once as a function
    and once as an in-place sort on an array, with a proof that the two
    agree.
- `Endpoint` (`endpoint.dfy`): the `Server` class.
  - URL normalisation and the name fallback.
  - The requests it builds and the result rule of `post_message`.
  - `fetch_messages`: the error paths, the sort and the watermark update.
  - The network is a function parameter `network: Request -> Response`.
    A `Response` is either a transport error or a reply with its status and
    its decoded JSON body.
- `Session` (`session.dfy`): the `ChatClient` class.
  - `add_server`, the index check of "Change server", `change_pseudo` and
    the guards of `send_message`.
  - One round of `poll_loop`: which lines it emits and in which order.
    `datetime.fromisoformat(...).strftime(...)` is a parameter `parseIso`
    that may fail.

Notes on what the code does:

- A username made only of spaces is accepted. Only `None` and `""` are
  rejected.
- `since_id` is sent only when `last_id` is truthy. A watermark of `0` or
  `""` is not sent.
- A post counts as successful when `success` is present and truthy.
- The watermark can move back to an older message. A later reply that holds
  only an older message sets it to that message's `id` (see
  `WatermarkCanMoveBack`).
- Messages are posted to `post_message.php` and fetched from
  `get_messages.php`, relative to the normalised address.

## Model

| member | source | states |
|---|---|---|
| Text.Strip | blob.py:134 | `str.strip()` removes a run of whitespace from each end. The result is empty exactly when the input is all whitespace; otherwise it starts and ends with a non-space character. |
| Text.Trim | blob.py:134 | Removing a predicate's characters from both ends leaves a contiguous slice. Everything outside it is dropped characters, and its end characters are kept characters. It is empty iff every character is dropped. |
| Text.TrimEnd | blob.py:20 | `rstrip` returns a prefix of the input. Every character it removed satisfies the predicate, and the last kept one does not. |
| Text.TrimStart | blob.py:134 | The leading half of `strip`: a suffix of the input. Every removed character satisfies the predicate, and the first kept one does not. |
| Text.LexLeTotal | blob.py:44 | Any two `ts` strings are comparable under Python's `<=` on `str`. |
| Text.LexLeTransitive | blob.py:44 | Python's `<=` on `str` is transitive. |
| Text.LexLeAntisymmetric | blob.py:44 | Two strings each `<=` the other are equal. |
| Text.LexLeCommonPrefix | blob.py:44 | A shared prefix does not change how two timestamps compare. |
| Messages.KeyFilterExact | blob.py:44 | The messages of one `ts` key form a subsequence of the list. It holds every message of that key, each as many times as the list does. |
| Messages.SortByTs | blob.py:44 | The sort by `m.get('ts', '')` returns a list ordered by `ts`. It keeps, for every key, the messages of that key in their original order (a stable sort), and it is a permutation of its input. |
| Messages.SortTwo | blob.py:44 | Two messages whose timestamps are out of order come back swapped. |
| Messages.SameKeyOrderPermutation | blob.py:44 | Keeping the per-key order of every key makes the result a permutation of the input. |
| Messages.SortedUnique | blob.py:44 | A stable sort by `ts` has exactly one possible result, so any stable sort equals `SortByTs`. |
| Messages.SortedLastIsGreatest | blob.py:44-46 | In a sorted list, the last message has the greatest `ts`. |
| Messages.SortInPlace | blob.py:44 | `msgs.sort(key=...)` in place on an array leaves exactly `SortByTs` of the old contents. |
| Endpoint.NormalizeUrl | blob.py:20 | `base_url.rstrip('/') + '/'` ends in exactly one `/`, keeps everything before the trailing slashes, and removes only slashes. |
| Endpoint.NormalizeUrlIdempotent | blob.py:20 | Normalising an already normal address changes nothing. |
| Endpoint.Server.constructor | blob.py:19-22 | The address is normalised, `name or base_url` is the name (`None` and `""` fall back), and the watermark starts as `None`. |
| Endpoint.PostSucceeded | blob.py:27-31 | A post succeeds iff the transport succeeds, `r.ok` holds, the body is a JSON object and its `success` is present and truthy. Every exception, and a non-OK status, gives failure. |
| Endpoint.Server.PostMessage | blob.py:24-31 | Posts the form (`pseudo`, `message`, the server's name) to `post_message.php` once and returns the result rule. |
| Endpoint.FetchRequest | blob.py:34-37 | The query goes to `get_messages.php` and carries `since_id` iff `last_id` is truthy, and then it is `last_id`. |
| Endpoint.MessageList | blob.py:38-43 | The list to sort is there exactly when the reply is OK JSON and `messages` is missing or a list of objects. It is empty when `messages` is missing, and otherwise the objects in order. |
| Endpoint.Fetch | blob.py:33-49 | Every failure returns `[]` and keeps the watermark. Success returns the list sorted stably by `ts`. An empty result keeps the watermark; otherwise it becomes the `id` of the last message, or stays when that message has no `id`. |
| Endpoint.Server.FetchMessages | blob.py:33-49 | The method, with its in-place sort, returns exactly the `Fetch` messages and leaves exactly the `Fetch` watermark. |
| Endpoint.WatermarkFromLatest | blob.py:44-46 | After a non-empty fetch, the watermark comes from a returned message whose `ts` is not smaller than any other returned. It is that message's `id`, or the old watermark when the message has no `id`. |
| Endpoint.DecodeTwo | blob.py:42-43 | A reply listing two message objects decodes to those two messages in order. |
| Endpoint.FreshFetchExample | blob.py:34-46 | A fresh server sends no `since_id`. Given two messages out of `ts` order, it returns them swapped and takes the later one's `id`. |
| Endpoint.ExampleTimestamps | blob.py:44 | Under Python's string order, `"2024-01-01T10:00:00"` is not `<=` `"2024-01-01T09:00:00"`: this one pair of same-day timestamps is out of order as written. |
| Endpoint.FetchOne | blob.py:43-46 | A single-message reply returns that message and takes its `id` (or keeps the watermark when it has none). |
| Endpoint.WatermarkCanMoveBack | blob.py:45-46 | The watermark can move from `7` back to `3` when a later reply holds only an older message. |
| Session.AdvanceAll | blob.py:147-148 | After a poll round, every server keeps its address and name. A server whose fetch failed or returned nothing is unchanged. Otherwise its watermark is the `id` of the last message it fetched, or the old watermark when that message has no `id`. |
| Session.ServerLines | blob.py:149-156 | There is one log line per fetched message. Every line names the server. The k-th line carries the k-th message's `pseudo` and `message`. Its time is the parsed `ts`, or the raw `ts` (`''` when missing) when parsing fails. |
| Session.TickLinesAppend | blob.py:147-156 | The lines of a round are grouped by server in list order. |
| Session.TickLinesSnoc | blob.py:147-156 | Polling one more server appends exactly its lines. |
| Session.TickLinesNameTheirServer | blob.py:155 | Every emitted line names one of the polled servers. |
| Session.ChatClient.constructor | blob.py:56-58 | No servers, no current server, username `"Guest"`. |
| Session.ChatClient.AddServer | blob.py:109-115 | Appends one new server built as the constructor says. It becomes current only when none was, and the invariant (current in list, distinct servers, each well formed) is kept. |
| Session.ChatClient.ChooseServer | blob.py:117-125 | With no servers nothing is asked. A cancelled or out-of-range index changes nothing. An index `0 <= idx < len` selects that server. |
| Session.ChatClient.ChangePseudo | blob.py:127-131 | The username changes iff the answer is present and non-empty, and then it is the answer. |
| Session.ChatClient.SendMessage | blob.py:133-143 | Blank (all-whitespace) text sends nothing. Otherwise, with no current server nothing is sent. Otherwise the stripped text is posted once under the username to the current server, with the post's result. |
| Session.ChatClient.PollServer | blob.py:147-156 | One server's turn in the loop: one fetch, then exactly `ServerLines` of what it returned, and the watermark that fetch leaves. |
| Session.ChatClient.PollOnce | blob.py:146-156 | One round over a snapshot of the list emits exactly `TickLines` of the old states. Every server's new state is `AdvanceAll` of the old, and the client invariant is kept. |

## Left out

- The Tkinter window is not modelled: the text area, the entry field, the
  menus and `log`. Log messages such as "[System] Server added" are not
  modelled.
- The dialogs (`askstring`, `askinteger`, `showerror`) are not modelled.
  Their answers are parameters of `AddServer`, `ChooseServer` and
  `ChangePseudo`.
- `add_server_dialog` skips `add_server` when the URL answer is empty. That
  guard is not modelled.
- The polling thread, the `running` flag, `time.sleep(POLL_INTERVAL)` and
  `quit_app` are not modelled. `PollOnce` is one round, and the endless
  loop is not modelled.
- Concurrency between the polling thread and the window is not modelled.
  The model assumes the list of servers does not change during a round.
- `root.after(0, self.log, line)` is not modelled. Lines are returned in
  order rather than scheduled.
- The `requests` library, timeouts and JSON decoding are replaced by the
  abstract `Response`. The network answers each request through a fixed
  function, so the same request in one round gets the same reply.
- JSON floats, arrays and objects as field values are not modelled.
  `Value` covers `null`, booleans, integers and strings.
- A `ts` that is present but not a string is not modelled. Comparing it
  with strings raises in Python.
- `datetime.fromisoformat(...).strftime('%H:%M:%S')` is the parameter
  `parseIso`, and calendar parsing is not modelled.
- The text of a log line is not modelled. A `Line` keeps its four parts
  rather than the formatted string.
- `send_message` clears the entry field afterwards. That is not modelled.
- `send_message` logs an error when the post fails. The model returns the
  result instead.
- ExampleTimestamps: covers one pair only. The general fact, that
  zero-padded ISO timestamps compare as strings in time order, would need a
  model of digit strings as numbers, and it is not proved. `LexLeCommonPrefix`
  covers only the shared date prefix.
