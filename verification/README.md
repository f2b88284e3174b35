# crayons `ColorWriter` — a Dafny model

This project models the colour-wrapping core of the `crayons` library
(`src/lib.rs`). A `ColorWriter` is bound to standard output or standard
error and holds a colour selection, `choice`. `choice` is either empty
or the text of a Select Graphic Rendition (SGR) foreground parameter
(section 8.3.117 of ECMA-48). `print` frames the payload bytes as

    ESC '[' <choice bytes> 'm' <payload> ESC '[' '0' 'm'

where `ESC '['` is the 7-bit Control Sequence Introducer (section 5.4 of
ECMA-48). It hands that buffer to the stream in a single write call.

Modules (one per component, all in pure functions and lemmas):

- `Wrappers` (wrappers.dfy): `Option`.
- `Utf8` (utf8.dfy): bytes, and the UTF-8 encoding behind `str::as_bytes`.
- `Colors` (colors.dfy): the closed `Color` enumeration and `get_color` (`Code`). It also has the inverse table `ColorOf` and the ECMA-48 foreground list used as an independent reference.
- `Frame` (frame.dfy): `format_str` (`FormatStr`). It also has two partners: a frame parser `Parse` and an escape stripper `Strip`.
- `Writer` (writer.dfy): the writer state, `new`, `print`, `set_color` and `reset`, the invariant on `choice`, and traces of calls (`Run`).

`set_color` and `reset` take the writer by value (`mut self`). The
assignment changes only the moved-in copy, so the caller keeps no writer
at all after the call. The model's `SetColor` and `Reset` return the
state the body computes. `Run` chains those states to state the
invariant across any sequence of calls. In a compiled Rust program, a
`set_color` or `reset` can only be the last call made on a given writer
(`Realizable`). On those sequences every buffer carries the selection
`new` gave the writer.

`get_color` ends with a wildcard arm that yields `"39"`. The enumeration
is closed, so that arm is unreachable. `Colors.Code` is an exhaustive
match without it.

An uncoloured writer still frames its payload: `hello` goes out as
`ESC [ m hello ESC [ 0 m`, which is 3 + 5 + 4 = 12 bytes.

## Model

| member | source | states |
|---|---|---|
| Colors.Code | src/lib.rs:107-116 | Every colour maps to two ASCII digits: '3' followed by a digit from '1' to '7' |
| Colors.ColorOfCode | src/lib.rs:107-116 | Looking a colour's parameter back up returns that colour, so no colour falls through to the default arm |
| Colors.CodeOfColorOf | src/lib.rs:107-116 | Every string the inverse table recognises is exactly the parameter of the colour it returns |
| Colors.IsCodeIffInRange | src/lib.rs:107-116 | A string is a colour parameter exactly when some colour's lookup yields it |
| Colors.CodeInjective | src/lib.rs:108-114 | Two colours get the same parameter if and only if they are the same colour |
| Colors.CodeFollowsEcma48 | src/lib.rs:108-114 | Each parameter is 31..37, and it is the one ECMA-48 assigns to the colour of that name (30 plus its place in the standard's list) |
| Utf8.AsBytes | src/lib.rs:84 | `as_bytes` is at least as long as the text; on ASCII text it has one byte per character, each equal to the character's code |
| Utf8.AsciiAsBytesInjective | src/lib.rs:84 | On ASCII text, two strings have the same bytes if and only if they are equal |
| Frame.FormatStr | src/lib.rs:98-104 | The frame has length payload + parameter + 7. It opens with `ESC [`, then the parameter, then `m`, then the payload. It closes with `ESC [ 0 m` |
| Frame.PayloadRecovery | src/lib.rs:99-103 | Dropping the first 3 + parameter-length bytes and the last 4 bytes gives the payload back, including the empty payload |
| Frame.ParseFormatStr | src/lib.rs:98-104 | A frame built from a parameter without `m` parses back into that parameter and payload |
| Frame.FormatStrParse | src/lib.rs:98-104 | Whatever parses is the frame of its own parts, and its parameter has no `m` |
| Frame.ParseIff | src/lib.rs:98-104 | A buffer parses into a given parameter and payload if and only if it is their frame and the parameter has no `m` |
| Frame.StripFormatStr | src/lib.rs:98-104 | Removing every `ESC [ ... m` from a frame whose parameter has no `m` and whose payload has no ESC leaves exactly the payload |
| Writer.New | src/lib.rs:56-81 | The writer gets the requested stream. `choice` is empty exactly when no colour is given, and otherwise it looks back up to the given colour. The invariant holds |
| Writer.NewChoiceIgnoresStream | src/lib.rs:56-81 | The stream kind never affects the selection `new` makes |
| Writer.SetColor | src/lib.rs:93-96 | The computed state keeps the stream, its `choice` looks back up to the given colour, and the invariant holds |
| Writer.Reset | src/lib.rs:88-91 | The computed state keeps the stream, its `choice` is empty and is no colour parameter, and the invariant holds |
| Writer.ChoiceBytes | src/lib.rs:84 | A valid selection is ASCII, has 0 or 2 bytes, and has no `m` byte |
| Writer.Print | src/lib.rs:83-86 | `print` leaves the writer unchanged and emits `format_str` of the payload and the selection's bytes. On a valid writer that buffer is payload + 9 bytes when coloured and payload + 7 when not, and it parses back into selection and payload |
| Writer.PrintShowsSelection | src/lib.rs:83-86 | The printed buffer carries colour c's parameter if and only if c is the writer's current selection |
| Writer.Run | src/lib.rs:83-96 | Chaining the calls' states never changes the stream and emits exactly one buffer per `print` call in the sequence, and nothing for `set_color` or `reset` |
| Writer.RunKeepsValid | src/lib.rs:56-96 | After any sequence of `print`, `set_color` and `reset` calls, `choice` is still empty or a colour parameter. Every emitted buffer is a frame whose parameter is empty or a colour's |
| Writer.RunChoice | src/lib.rs:83-96 | Chaining the states the bodies compute, the final selection is the one the last `set_color` or `reset` body assigns, or the initial one if there is none |
| Writer.RealizablePrintsInitialChoice | src/lib.rs:83-96 | On every call sequence Rust accepts (prints, then at most one final `set_color` or `reset`), each emitted buffer comes from the print at the same position and is `format_str` of its payload under the selection the writer started with, and every print emits one |
| Writer.GreenOkScenario | src/lib.rs:56-104 | A green writer on stdout prints `ok` as `ESC [ 3 2 m o k ESC [ 0 m` |
| Writer.UncolouredWarnScenario | src/lib.rs:56-104 | An uncoloured stderr writer frames `warn` with the empty parameter; `hello` gives 12 bytes |
| Writer.BlueThenResetScenario | src/lib.rs:88-104 | Framing from the state `set_color(Blue)`'s body computes would carry "34". Framing from the state a further `reset` body computes would carry the empty parameter. The empty payload keeps the full frame |

## Left out

- The `io::Write` impl of `StandardStream` (src/lib.rs:34-48), `flush`, and acquiring `io::stdout()` / `io::stderr()`: these are OS stream plumbing. The stream is a `StreamKind` tag.
- Writer.Print: returns the buffer passed to the single write call, not the `io::Result<usize>`. The byte count and any I/O error depend on the OS stream, which is not visible here.
- Move semantics and lifetimes: `set_color` and `reset` consume the writer. The model returns the state their bodies compute. `Writer.Realizable` names the call sequences Rust accepts, and `Writer.RealizablePrintsInitialChoice` states what they emit.
- Writer.RunChoice: states the selection over any call sequence, including ones Rust rejects because a call follows `set_color` or `reset`. On those it describes in-place mutation, which the library does not provide.
- Writer.BlueThenResetScenario: prints from states that no Rust program can print from, because `set_color` and `reset` consume the writer. It shows what their bodies compute, not output the library can produce.
- Concurrent writes to the shared process streams: the library does not synchronise them, and their interleaving is outside the model.
- Frame.StripFormatStr: `Frame.Strip` is a reference definition for the recovery property, not code from the library. It is stated only for payloads without ESC, because a payload that contains its own `ESC [ ... m` would be stripped too.
