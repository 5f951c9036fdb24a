# Chat server core in Dafny

This project models two parts of a small Asio-based TCP server. It proves
their behaviour.

- **The chat protocol task** (`TaskChat`). Each chunk a connection receives
  is read through a `std::istringstream`. The first non-whitespace byte is a
  command:
  - `h` sets the connection's id and greets it;
  - `b` broadcasts a message;
  - `u` sends a message to the connection with a given id;
  - `d` disconnects;
  - `l` logs a message;
  - `e` echoes a message;
  - any other byte is answered with "Unknown command".

  The model turns a chunk into the calls the task makes on its connection,
  in order (`Effect`), and the action it returns (`Connection.Action`).
  `SkipWs`, `SplitWord` and `NextToken` model the two stream extractions the
  task uses:
  - `char` extraction skips C-locale whitespace and takes one byte;
  - `std::string` extraction skips whitespace and takes the longest run of
    non-whitespace bytes. On failure the freshly declared string stays
    empty.

- **The connection registry** (`ConnectionRegistry.ConnectionManager`). It
  holds the set of live connections. Connections add and remove themselves.
  Broadcast and unicast walk the set with `forEach` and `forEachIf`.
  - The set is a `set<Handle>` field that `Add` and `Remove` reassign.
  - A handle stands for a connection's shared pointer. `std::set` orders
    those by address, so iteration visits handles in ascending order
    (`Ascending`).
  - `ForEach` and `ForEachIf` return the sequence of handles the callback
    would be applied to.

Files:
- `connection.dfy` holds the `Action` shared by a task and its connection.
- `task_chat.dfy` holds module `TaskChat`.
- `connection_manager.dfy` holds module `ConnectionRegistry`.

Each per-command lemma describes its chunk independently of the tokenizer's
recursion, as `lead + [c] + gap + token + rest`:
- `lead` and `gap` are whitespace;
- `token` has none;
- `Delimits` says where the token ends.

## Model

| member | source | states |
|---|---|---|
| TaskChat.Start | server_chat.hpp:18-21 | every chat connection starts by reading |
| TaskChat.Process | server_chat.hpp:113-115 | post-processing makes no call on the connection |
| TaskChat.SkipWs | server_chat.hpp:44 | what is left after skipping whitespace is empty exactly when the chunk is all whitespace, and otherwise starts with a non-whitespace byte |
| TaskChat.SkipWsDropsSpace | server_chat.hpp:44 | skipping drops a whitespace prefix and nothing else: the rest is a suffix of the chunk and everything before it is whitespace |
| TaskChat.SkipWsPastSpace | server_chat.hpp:44 | whitespace in front of the stream does not change what is left after skipping |
| TaskChat.SplitWord | server_chat.hpp:49 | a word and the rest concatenate back to the input; the word has no whitespace, and the rest is empty or starts with whitespace (the word is maximal) |
| TaskChat.SplitWordOfWord | server_chat.hpp:49 | a whitespace-free word followed by whitespace or the end of the chunk splits off exactly that word and leaves exactly that rest |
| TaskChat.NextToken | server_chat.hpp:49 | one string extraction: the token has no whitespace, token and rest concatenate to the input after whitespace is skipped, and the rest is empty or starts with whitespace |
| TaskChat.NextTokenOfSpace | server_chat.hpp:48-49 | an extraction from nothing but whitespace reads the empty string and leaves nothing |
| TaskChat.NextTokenOfWord | server_chat.hpp:49 | an extraction from whitespace, a word and a whitespace-led rest reads the word and leaves the rest |
| TaskChat.NextTokenReads | server_chat.hpp:49 | an extraction from `gap + t + rest` (as `Delimits` allows) reads `t`, and leaves `rest` when `t` is non-empty |
| TaskChat.Command | server_chat.hpp:43-44 | the command byte is never whitespace |
| TaskChat.HelloCommand | server_chat.hpp:46-56 | the `h` branch's calls end in exactly one read and do not disconnect |
| TaskChat.BroadcastCommand | server_chat.hpp:57-64 | the `b` branch's calls end in exactly one read and do not disconnect |
| TaskChat.UnicastCommand | server_chat.hpp:65-73 | the `u` branch's calls end in exactly one read and do not disconnect |
| TaskChat.LogCommand | server_chat.hpp:78-86 | the `l` branch's calls end in exactly one read and do not disconnect |
| TaskChat.EchoCommand | server_chat.hpp:87-94 | the `e` branch's calls end in exactly one read and do not disconnect |
| TaskChat.UnknownCommand | server_chat.hpp:95-101 | the unknown-command branch's calls end in exactly one read and do not disconnect |
| TaskChat.Dispatch | server_chat.hpp:46-103 | always returns Process; the calls are exactly `[disconnect]` if and only if the command is `d`; every other command's calls end in exactly one read and never disconnect |
| TaskChat.Parse | server_chat.hpp:36-104 | always returns Process; the calls are exactly `[disconnect]` if and only if the command byte is `d`; otherwise they end in exactly one read and never disconnect |
| TaskChat.ParseReadsCommand | server_chat.hpp:43-44 | leading whitespace is skipped, the first other byte is the command, and parsing continues with what follows it |
| TaskChat.DispatchHello | server_chat.hpp:46-56 | after `h`, the next token is set as id and greeted as `Hello '<id>'.`, then one read |
| TaskChat.ParseHello | server_chat.hpp:46-56 | `h <id>` gives set-id, the response `Hello '<id>'.` and a read, in that order; a missing id is the empty string |
| TaskChat.DispatchBroadcast | server_chat.hpp:57-64 | after `b`, the next token is broadcast, then one read |
| TaskChat.ParseBroadcast | server_chat.hpp:57-64 | `b <message> ...` broadcasts the first token only, then reads |
| TaskChat.DispatchUnicast | server_chat.hpp:65-73 | after `u`, the first token names the receiver and the second is the message, then one read |
| TaskChat.ParseUnicast | server_chat.hpp:65-73 | `u <id> <message> ...` gives one unicast of the second token to the first, then a read |
| TaskChat.DispatchUnicastNoId | server_chat.hpp:65-73 | after `u` with only whitespace left, both extractions fail and the unicast has an empty id and message |
| TaskChat.ParseUnicastNoId | server_chat.hpp:65-73 | `u` followed by only whitespace gives a unicast of the empty message to the empty id, then a read |
| TaskChat.ParseDisconnect | server_chat.hpp:74-77 | `d` gives exactly one disconnect: no response and no further read |
| TaskChat.DispatchLog | server_chat.hpp:78-86 | after `l`, the next token is logged, then one read |
| TaskChat.ParseLog | server_chat.hpp:78-86 | `l <message> ...` logs the first token only, then reads |
| TaskChat.DispatchEcho | server_chat.hpp:87-94 | after `e`, the next token is sent back, then one read |
| TaskChat.ParseEcho | server_chat.hpp:87-94 | `e <message> ...` sends the first token back, then reads |
| TaskChat.ParseUnknown | server_chat.hpp:95-101 | any other non-whitespace command byte `c` gives the response `Unknown command '<c>'.`, then a read |
| TaskChat.ParseSkipsLeadingWhitespace | server_chat.hpp:41-44 | whitespace prepended to a chunk does not change what parsing does |
| ConnectionRegistry.Ascending | connection_manager.hpp:19 | set iteration order: strictly increasing, holding exactly the set's handles, as many as the set has |
| ConnectionRegistry.AscendingUnique | connection_manager.hpp:19 | a strictly increasing sequence holding exactly the handles of a set is that set's iteration order |
| ConnectionRegistry.Filter | connection_manager.hpp:81-87 | keeps exactly the handles that satisfy the predicate, and keeps increasing order |
| ConnectionRegistry.FilterAscending | connection_manager.hpp:81-87 | filtering the iteration order gives the iteration order of the matching handles |
| ConnectionRegistry.ConnectionManager.constructor | connection_manager.hpp:47 | a new registry is empty |
| ConnectionRegistry.ConnectionManager.Add | connection_manager.hpp:94-101 | the new set is the old one plus the handle; the handle is present afterwards; adding a present handle changes nothing |
| ConnectionRegistry.ConnectionManager.Remove | connection_manager.hpp:107-118 | the new set is the old one minus the handle; removing an absent handle changes nothing |
| ConnectionRegistry.ConnectionManager.ForEach | connection_manager.hpp:55-66 | visits every registered handle exactly once, in set order, and nothing else; the registry is not modified |
| ConnectionRegistry.ConnectionManager.ForEachIf | connection_manager.hpp:73-88 | visits every registered handle that satisfies the predicate (all of them, not only the first) exactly once, in set order; the registry is not modified |
| ConnectionRegistry.AddThenRemove | connection_manager.hpp:94-118 | adding a handle that was not registered and then removing it restores the registry |
| ConnectionRegistry.ForEachIfAllIsForEach | connection_manager.hpp:62-65 | with a predicate that always holds, `forEachIf` visits exactly what `forEach` visits |

## Left out

- The mutex in `ConnectionManager`: each method is one atomic step here, and concurrent callers are not modelled.
- The calls into the connection (`setId`, `response`, `broadcast`, `unicast`, `log`, `read`, `disconnect`) are recorded as `Effect` values in order. What they do is in `connection.hpp` and the server's connection class, which are not part of this model; this includes sockets, SSL, `shared_from_this` and `getState`.
- The callback and its extra arguments in `forEach`/`forEachIf`: the model returns the sequence of handles the callback is applied to. The predicate is a pure function, so side effects of a predicate are not modelled.
- `TaskChat::parseError`: it only writes "Parse error" to standard error.
- The `TaskChat` constructor only stores the connection pointer, which the model replaces by the returned effect sequence.
- TaskChat.Parse: a chunk of nothing but whitespace is excluded by its precondition. There the `char` extraction fails, and C++ then compares an uninitialised `command`, so the source has no defined behaviour to model.
- The unused locals `space`, `cr`, `lf` and the `l` branch's `id` affect nothing.
- The 1024-byte receive buffer bound is not required of `Parse`, which is defined for chunks of any length.
- Connection handles are integers ordered as `std::set` orders shared pointers (by address). Which address a connection gets is outside the model.
