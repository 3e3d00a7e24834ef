# simple-observers in Dafny

This project models `SimpleFileObserver` of the `simple-observers` package. It is a
Twisted log observer bound to one file. For each log event, `emit` asks Twisted's
formatter for the event's text. If the formatter gives no text, the event is skipped.
Otherwise every newline in the text becomes a newline followed by a tab, so that a
multi-line event (a traceback, say) reads as one indented logical line. The result is
written with a trailing newline, and then the file is flushed.

Layout:

- `text_lines.dfy`, module `TextLines`: the text transforms of `emit`, as pure functions.
  - `Replace` is Python's `str.replace` for a non-empty pattern.
  - `Indent` is the continuation indent.
  - `Unindent` is its inverse.
  - `Line` is the exact text written for one event.
  - `Stream` is what a sequence of events writes.
  - `Decode` reads such a stream back into event texts.
- `simple_observers.dfy`, modules `Wrappers` and `SimpleObservers`:
  - `FileSink` is the file, seen as its history of `Write(data)` and `Flush` calls.
  - `SimpleFileObserver` holds that file. Its `Emit` method appends to the history.
  - `EmitOps`, `Transcript` and `Written` describe what one emit, or a sequence of emits, does to the file.

Twisted's formatter (`log.textFromEventDict`) is Twisted's code and outside this model,
so `Emit` takes it as a parameter. It is a function from the event to `Option<string>`.

tests.py builds the observer with two files (tests.py:21) and exercises a
`KeyValueFileObserver` (tests.py:49-90). simple_observers.py has a single-file
constructor (simple_observers.py:6) and only the plain-text observer. The model follows
simple_observers.py.

## Model

| member | source | states |
|---|---|---|
| `TextLines.IndentChar` | simple_observers.py:15 | a newline becomes newline-tab; any other character is kept as it is |
| `TextLines.IndentAppend` | simple_observers.py:15 | the indent of a concatenation is the concatenation of the indents, so characters keep their order |
| `TextLines.IndentLength` | simple_observers.py:15 | the indent adds exactly one character per newline in the text |
| `TextLines.IndentIdentity` | simple_observers.py:15 | text without a newline is left unchanged |
| `TextLines.IndentNoBareNewline` | simple_observers.py:15 | after the indent, every newline is immediately followed by a tab |
| `TextLines.IndentHead` | simple_observers.py:15 | the indented text starts with the same character as the text |
| `TextLines.UnindentIndent` | simple_observers.py:15 | round trip: turning each newline-tab back into a newline recovers the text |
| `TextLines.IndentInjective` | simple_observers.py:15 | two different texts never give the same indented text |
| `TextLines.LineLength` | simple_observers.py:15-17 | the written string has length \|text\| + number of newlines in text + 1 |
| `TextLines.LineIsOneLogicalLine` | simple_observers.py:15-17 | the written string ends in a newline, and that newline is its only one not followed by a tab; dropping the newline and undoing the indent gives the text back |
| `TextLines.LineWithoutNewline` | simple_observers.py:15-17 | text without a newline is written as the text plus "\n" |
| `TextLines.HelloLine` | tests.py:27-29 | the event text "hello" is written as "hello\n" |
| `TextLines.FirstBareNewline` | simple_observers.py:15-17 | the index returned is the first newline not followed by a tab (or the length when there is none): every earlier newline is followed by a tab |
| `TextLines.DecodeStream` | simple_observers.py:15-17 | reading the lines written for a sequence of texts gives exactly those texts back, provided no text after the first begins with a tab |
| `TextLines.TabLeadingTextIsAmbiguous` | simple_observers.py:15-17 | without that proviso, the events "a" and "\tb" are written exactly as the single event "a\nb" |
| `SimpleObservers.FileSink.Write` | simple_observers.py:7 | the file's history gains exactly one `Write(data)` call |
| `SimpleObservers.FileSink.Flush` | simple_observers.py:8 | the file's history gains exactly one `Flush` call |
| `SimpleObservers.SimpleFileObserver.constructor` | simple_observers.py:6-8 | the observer is bound to the file it is given |
| `SimpleObservers.SimpleFileObserver.Emit` | simple_observers.py:10-18 | no text: the file history is unchanged (no write, no flush); text: the history gains exactly `Write(indented text + "\n")` followed by `Flush`, and nothing else |
| `SimpleObservers.HelloScenario` | tests.py:27-29 | an observer on a fresh file that emits "hello" leaves the history `[Write("hello\n"), Flush]` |
| `SimpleObservers.EmitWrites` | simple_observers.py:11-17 | one emit writes nothing when there is no text, and otherwise exactly that text's line |
| `SimpleObservers.WrittenTranscript` | simple_observers.py:10-18 | a sequence of emits writes the concatenated lines of the texts, in order, and skips the events without text |
| `SimpleObservers.TranscriptFlushesEachWrite` | simple_observers.py:17-18 | a sequence of emits makes one write per text, in order, and each write is immediately followed by a flush |
| `SimpleObservers.ReadBackTranscript` | simple_observers.py:10-18 | one event is one logical line: what a sequence of emits wrote reads back as the texts of the events that had one, provided no text after the first begins with a tab |

## Left out

- `log.textFromEventDict` (simple_observers.py:11) is Twisted's formatter, and its code is not part of this model. `Emit` takes it as a parameter.
- `util.untilConcludes` (simple_observers.py:17-18) retries a call that was interrupted by a signal. Each write and flush is modelled as one call that succeeds. A failing write or flush, which would propagate to the caller, is not modelled.
- `start` and `stop` (simple_observers.py:20-30) only register and unregister `emit` with Twisted's process-wide observer list, and that registry is not part of this model.
- `SimpleStdoutLogger` (simple_observers.py:33-34) binds an observer to the process's standard output. This is I/O wiring, not modelled.
- `KeyValueFileObserver` and the two-file constructor appear only in tests.py (tests.py:3, 21, 49-90). simple_observers.py defines neither, so neither is modelled.
- The package runs on Python 2 (tests.py:1 imports cStringIO), where `str` is a byte string. The model uses Dafny's `string`, because the transform only looks for the newline character and keeps every other byte.
