# A chat server's registry and command logic, in Dafny

This project models the core of a small TCP chat server written in Go
(`server.go`, `user.go`). The server keeps a registry `OnlineMap` from user
name to the connected `User`. A user may:

- ask `who` is online;
- `rename|<name>` themselves;
- send `to|<name>|<text>` to one user;
- type anything else, which is broadcast as `[addr]name:text` to every
  registered user.

Each operation is modelled as one atomic step on the server's state:

- `GoString`: Go strings as byte sequences, with `strings.Split` on `|` and
  the indexing `Split(...)[i]` as `Field`. Field is `None` where Go panics.
- `Wire`: the UTF-8 bytes of every fixed text, the three line formats, and
  the framing of a read (drop the last byte).
- `Commands`: the router's guards as a pure `Parse`, with lemmas fixing
  which branch each line takes and which field each branch uses.
- `Chat`: the `User` and `Server` classes, with in-place updates of the
  registry, the user's name and the user's output logs.
  - `Direct` holds what `SendMsg` wrote straight to the connection.
  - `Mailbox` holds the broadcast lines received on the user's channel.
  - `Written()` is the mailbox as its writer puts it on the wire, each line
    followed by `\n`.
  - The broadcast channel `Message` is a queue of published lines.
    `ListenMessage` fans each line out to every registered user, in
    publish order.

The registry invariant `Server.Valid()` says every key maps to a user whose
`Name` is that key. `Online`, `Offline`, `DoMessage`, `Handler` and
`HandleRead` all preserve it.

Some behaviours of the Go code worth knowing, all stated in the model:

- A connecting client is registered before its join line is fanned out, so
  it receives its own join line (`JoinSeesOwnNotice`).
- A directed message is written straight to the target's connection
  (`Direct`); it does not pass through the target's mailbox.
- `to|<existing name>` with no second `|` indexes past the end of the split
  at user.go:108, which is an index-out-of-range panic rather than a
  notice. The model makes it an explicit outcome: `DoMessage` returns
  `ok == false`, having changed nothing, and `HandleRead` returns `Crash`.
- `Online` overwrites any user already registered under the same name,
  with no collision check.
- `rename||x` passes the rename guard and renames to the empty name, which
  is the second `|`-field (`GuardExamples`).

## Model

| member | source | states |
|---|---|---|
| GoString.EncodeChar | user.go:73 | a character takes 1 to 4 bytes; a single byte exactly for ASCII, equal to the code point; every byte of a longer encoding is at least 0x80 |
| GoString.Utf8 | user.go:73 | a literal has at least as many bytes as characters, so Go's `len` counts bytes, not characters |
| GoString.Utf8HasNoAsciiOutsideText | user.go:95 | an ASCII byte such as the bar occurs in a literal's bytes only where its text has that character, so splitting on the bar is unaffected by multi-byte names |
| GoString.Split | user.go:75 | `strings.Split` always yields at least one piece, and exactly one when the separator does not occur |
| GoString.Field | user.go:108 | the i-th field of `strings.Split` on the bar exists exactly when `i` is below the number of pieces; otherwise Go panics |
| GoString.SplitPiecesOmitSep | user.go:75 | no piece contains the separator |
| GoString.JoinSplit | user.go:75 | joining the pieces with the separator gives back the line |
| GoString.SplitJoin | user.go:95-108 | splitting a join of separator-free fields gives back the fields |
| GoString.SplitPrefix | user.go:75 | a separator-free prefix becomes part of the first piece, and the other pieces are unchanged |
| GoString.SplitCons | user.go:75 | a first byte other than the separator starts the first piece, and the other pieces are those of the rest |
| GoString.SplitWithoutSep | user.go:95-108 | a string without the separator is its own single piece |
| GoString.SplitAfterPiece | user.go:95-108 | a separator-free piece followed by the separator splits off as the first field |
| Wire.CommandTokens | user.go:64-92 | the command tokens are the bytes of `who` and of the `rename` and `to` prefixes, each ending in a bar |
| Wire.PunctuationBytes | server.go:49 | the bracket, colon, bar and newline bytes are those characters |
| Wire.Frame | server.go:79 | the line handed to the router is the read minus exactly its last byte, one byte shorter |
| Wire.FrameTerminated | server.go:79 | a line followed by `\n` is framed back to the line itself |
| Wire.FrameDropsLastByte | server.go:79 | the last byte of a read is dropped whatever it is, so a read not ending in `\n` loses a byte of its text |
| Wire.BroadcastLine | server.go:49 | the line is `[addr]name:msg`: three bytes of punctuation longer than its parts, its message is its tail, and its address is read back from between the brackets whenever the address has no `]` |
| Wire.WhoLine | user.go:68 | the `who` line ends in its own newline, and its address is read back from between the brackets whenever the address has no `]` |
| Wire.RenamedLine | user.go:89 | the confirmation is the fixed text, then exactly the new name, then a newline |
| Wire.DirectLine | user.go:114 | the directed line is the sender's name, the fixed infix, exactly the content, then a newline |
| Wire.UpToClose | server.go:49 | the reader's side of the broadcast format: the text recovered before the first `]` contains no `]` |
| Wire.UpToCloseStopsAtClose | server.go:49 | text without `]` followed by `]` is recovered whole |
| Commands.Parse | user.go:63-117 | a chat line is the line verbatim; a rename carries the second bar-separated field; a `to` carries the second field and the third field if there is one |
| Commands.GuardExamples | user.go:73-116 | the bare `rename` prefix, `to` prefix plus `a`, `to` prefix plus a bar, `Who` and `who ` are chat lines; the `to` prefix plus `张` passes the byte-length guard; the `rename` prefix plus a bar and `x` renames to the empty name |
| Commands.ParseRename | user.go:73-75 | the `rename` prefix and a name, optionally followed by more fields, renames to exactly `name` |
| Commands.RenameShape | user.go:73-75 | conversely, a line routed to rename starts with the `rename` prefix and the new name, which is followed by the end of the line or by a bar |
| Commands.FirstPiece | user.go:75 | the first piece is a separator-free prefix, ended by the separator or by the end of the line |
| Commands.ParseTo | user.go:92-108 | the `to` prefix, a target, a bar and a content carries exactly `target` and `content`, and any further field is dropped |
| Commands.PieceBeforeSep | user.go:108 | the piece in front of the end of the line or of a separator is the text before it |
| Commands.ParseToWithoutContent | user.go:95-108 | the `to` prefix and a target with no further bar has no third field |
| Chat.EnumerationCount | user.go:67-70 | a listing of every registry key, each once, has one entry per key |
| Chat.EnumerationExtend | user.go:67 | listing one more unlisted key extends such a listing |
| Chat.WhoLines | user.go:67-69 | one `who` line per listed entry |
| Chat.WhoLinesAt | user.go:67-69 | the i-th `who` line is `[addr]name:在线... \n` for the i-th listed entry |
| Chat.TerminateAll | user.go:122-126 | each mailbox line goes on the wire as one write ending in `\n`, which the server's framing would turn back into that line |
| Chat.TerminateAllAppend | user.go:122-126 | writing two batches of lines one after the other is writing them all in order |
| Chat.User.constructor | user.go:18-32 | name and address are both the remote address, and nothing has been sent or received |
| Chat.User.SendMsg | user.go:58-60 | the message is appended to the user's direct output |
| Chat.User.Written | user.go:122-126 | one write per mailbox line, in order, each ending in a newline and framed back to that line |
| Chat.User.Online | user.go:35-43 | the name's key now maps to this user, overwriting any holder; other keys are unchanged; the join line is published; the registry invariant is kept |
| Chat.User.Offline | user.go:46-55 | only the name's key is removed, whatever user it maps to; the leave line is published; the registry invariant is kept |
| Chat.User.SendWho | user.go:64-71 | the requester receives one `who` line per registry entry, for a listing of every key exactly once, in some order |
| Chat.User.DoMessage | user.go:63-119 | per branch: the `who` lines, one per entry; rename collision and success; the three `to` notices; delivery to the target only; the panic; chat publishes the broadcast line. Only rename changes the registry or the name, only chat publishes, only a delivered `to` writes to another user, and the registry invariant is kept |
| Chat.User.Rename | user.go:73-91 | if the new name is a key, including the user's own name, only the name-in-use notice is sent; otherwise the old key is deleted, the new key maps to the user, the name follows and the confirmation is sent |
| Chat.User.PrivateChat | user.go:92-114 | notices in the source's order (empty target, unknown target, missing third field panics, empty content); otherwise only the target receives `name对您说:content\n` |
| Chat.Server.Valid | user.go:82-88 | every key maps to a user whose name is that key (kept at user.go:38, 49 and 83-88); then no user sits under two keys, so the fan-out at server.go:40-41 reaches each registered user once |
| Chat.Server.constructor | server.go:24-31 | no user is registered and nothing is pending; the registry invariant holds |
| Chat.Server.BroadCast | server.go:48-51 | publishes `[addr]name:msg` with the user's current name |
| Chat.Server.FanOut | server.go:36-43 | the oldest pending line is taken off the queue and appended once to the mailbox of every registered user; no other mailbox changes |
| Chat.Server.ListenMessage | server.go:34-45 | every registered user receives every pending line once, in publish order, and its connection gets each one followed by `\n` |
| Chat.Server.Handler | server.go:53-59 | a fresh user named after its address is registered and its join line published before anything is read |
| Chat.Server.HandleRead | server.go:65-81 | an empty read takes the user offline and stops, with its name, its own direct log and every registered user's direct log unchanged; a failed read stops with the registry, the queue, the name and every direct log unchanged; otherwise the read minus its last byte is routed: the loop crashes exactly when that line panics, a rename line changes the registry and the name as `Rename` does, only a chat line publishes, a delivered `to` appends the directed line to its target's log and to no one else's, and no other line writes to anyone but the requester |
| Chat.JoinSeesOwnNotice | server.go:57-59 | a joining connection receives, and has written to it, its own join line |
| Chat.RebindKeepsUsers | user.go:83-85 | moving a registered user from its old key to a new one registers no user who was not registered before |
| Chat.SecondRenameRefused | user.go:75-89 | when two users ask for the same free name one after the other, the first gets it, the second gets the name-in-use notice, and the registry maps the name to the first |

## Left out

- Goroutines, channels and the registry's `sync.RWMutex` are not modelled. Each operation is one atomic step.
- The unlocked collision lookup at user.go:78 races with concurrent renames. A sequential model cannot express that race.
- Publishing on the unbuffered broadcast channel blocks the sender until the fan-out loop takes the line. The model queues the line instead, and `ListenMessage` drains the queue until it is empty rather than running forever.
- Go's map iteration order is unspecified. `who` lines and fan-out are stated for some listing of the keys, each key once, and not for a fixed order.
- The 300-second idle watchdog, the `isLive` pulse, and the kick path that closes the channel and the connection (server.go:61-62, 84, 88-110) are timing and concurrency.
- `Start`, the listener and the accept loop (server.go:115-141) are socket I/O.
- Console logging with `fmt.Println` is left out.
- Connection reads and writes are not modelled as I/O:
  - A read becomes the `data`/`err` parameters of `HandleRead`. How TCP splits a stream into reads is not modelled.
  - Writes become the `Direct` and `Mailbox` logs. Write failures and the interleaving of the two logs on one connection are not modelled.
- The multi-byte notice texts are written as their UTF-8 bytes, with the text in a comment beside each. Only the command tokens and the punctuation are proved equal to the encoding of their text.
- A panic is reported as the `Crash` outcome. What happens to the process after it is not modelled.
- Chat.Server.HandleRead: does not restate the notice each line sends to its requester or the `who` lines sent to the requester; `DoMessage`'s contract states those.
