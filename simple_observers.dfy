/** Option, as the formatter's "text or no text" result. */
module Wrappers {
  datatype Option<+T> = None | Some(value: T)
}

/** SimpleFileObserver: a log observer that writes each event's text to one
    file, indented so that the event stays one logical line, and flushes. */
module SimpleObservers {
  import opened Wrappers
  import opened TextLines

  /** One call made on the file: a write of some text, or a flush. */
  datatype SinkOp = Write(data: string) | Flush

  /** The file the observer writes to, seen through the calls made on it. */
  class FileSink {
    var history: seq<SinkOp>

    constructor ()
      ensures history == []
    {
      history := [];
    }

    method Write(data: string)
      modifies this
      ensures history == old(history) + [SinkOp.Write(data)]
    {
      history := history + [SinkOp.Write(data)];
    }

    method Flush()
      modifies this
      ensures history == old(history) + [SinkOp.Flush]
    {
      history := history + [SinkOp.Flush];
    }
  }

  /** The calls one emit makes for a formatter result. */
  function EmitOps(text: Option<string>): seq<SinkOp>
  {
    match text
    case None => []
    case Some(t) => [SinkOp.Write(Line(t)), SinkOp.Flush]
  }

  /** The calls made by emitting a sequence of formatter results in order. */
  function Transcript(results: seq<Option<string>>): seq<SinkOp>
  {
    if results == [] then [] else EmitOps(results[0]) + Transcript(results[1..])
  }

  /** The texts among a sequence of formatter results, in order. */
  function Texts(results: seq<Option<string>>): seq<string>
  {
    if results == [] then []
    else (if results[0].Some? then [results[0].value] else []) + Texts(results[1..])
  }

  /** Everything written to the file, in order. */
  function Written(history: seq<SinkOp>): string
  {
    if history == [] then []
    else (if history[0].Write? then history[0].data else []) + Written(history[1..])
  }

  class SimpleFileObserver {
    /** The file whose write and flush the observer calls. */
    const file: FileSink

    constructor (f: FileSink)
      ensures file == f
    {
      file := f;
    }

    /** Formats the event; an event without text is skipped, any other is
        written indented and newline-terminated, then the file is flushed. */
    method Emit<E>(eventDict: E, textFromEventDict: E -> Option<string>)
      modifies file
      ensures textFromEventDict(eventDict).None? ==> file.history == old(file.history)
      ensures textFromEventDict(eventDict).Some? ==>
        file.history == old(file.history) + [SinkOp.Write(Line(textFromEventDict(eventDict).value)), SinkOp.Flush]
    {
      var text := textFromEventDict(eventDict);
      if text.None? {
        return;
      }
      var indented := Indent(text.value);
      file.Write(indented + "\n");
      file.Flush();
    }
  }

  /** log.msg('hello') through an observer on a fresh file leaves the file
      holding "hello\n", flushed. */
  method HelloScenario() returns (history: seq<SinkOp>)
    ensures history == [SinkOp.Write("hello\n"), SinkOp.Flush]
    ensures Written(history) == "hello\n"
  {
    var out := new FileSink();
    var observer := new SimpleFileObserver(out);
    observer.Emit("hello", (m: string) => Some(m));
    HelloLine();
    history := out.history;
    assert Written(history[1..]) == [];
  }

  // ---------------------------------------------------------------------
  // Properties of emitting.

  /** The two cases of Emit's contract together say that it appends
      EmitOps of the formatter result. */
  lemma EmitAppendsEmitOps(text: Option<string>, before: seq<SinkOp>, after: seq<SinkOp>)
    requires text.None? ==> after == before
    requires text.Some? ==> after == before + [SinkOp.Write(Line(text.value)), SinkOp.Flush]
    ensures after == before + EmitOps(text)
  {
  }

  lemma {:induction false} WrittenAppend(a: seq<SinkOp>, b: seq<SinkOp>)
    ensures Written(a + b) == Written(a) + Written(b)
    decreases |a|
  {
    if a == [] {
      assert a + b == b;
    } else {
      assert (a + b)[1..] == a[1..] + b;
      WrittenAppend(a[1..], b);
    }
  }

  /** What one emit writes: nothing for no text, else exactly its line. */
  lemma EmitWrites(text: Option<string>)
    ensures Written(EmitOps(text)) == if text.Some? then Line(text.value) else []
  {
    if text.Some? {
      var ops := EmitOps(text);
      assert ops[1..] == [SinkOp.Flush];
      assert ops[1..][1..] == [];
      assert Written(ops[1..]) == [];
      assert Written(ops) == Line(text.value) + Written(ops[1..]);
    }
  }

  /** A sequence of emits writes exactly the stream of the texts, skipping
      the events without text. */
  lemma {:induction false} WrittenTranscript(results: seq<Option<string>>)
    ensures Written(Transcript(results)) == Stream(Texts(results))
    decreases |results|
  {
    if results != [] {
      var r := results[0];
      WrittenAppend(EmitOps(r), Transcript(results[1..]));
      EmitWrites(r);
      WrittenTranscript(results[1..]);
      if r.Some? {
        var ts := [r.value] + Texts(results[1..]);
        assert ts[1..] == Texts(results[1..]);
      } else {
        assert Texts(results) == Texts(results[1..]);
      }
    }
  }

  /** Every write in a transcript is followed immediately by a flush, and
      there are as many writes as results with text. */
  lemma {:induction false} TranscriptFlushesEachWrite(results: seq<Option<string>>)
    ensures |Transcript(results)| == 2 * |Texts(results)|
    ensures forall i :: 0 <= i < |Transcript(results)| / 2 ==>
      Transcript(results)[2 * i] == SinkOp.Write(Line(Texts(results)[i])) &&
      Transcript(results)[2 * i + 1] == SinkOp.Flush
    decreases |results|
  {
    if results != [] {
      TranscriptFlushesEachWrite(results[1..]);
      var r := results[0];
      var rest := Transcript(results[1..]);
      if r.Some? {
        var ops := Transcript(results);
        assert ops == [SinkOp.Write(Line(r.value)), SinkOp.Flush] + rest;
        forall i | 0 <= i < |ops| / 2
          ensures ops[2 * i] == SinkOp.Write(Line(Texts(results)[i])) && ops[2 * i + 1] == SinkOp.Flush
        {
          if i > 0 {
            assert ops[2 * i] == rest[2 * (i - 1)];
            assert ops[2 * i + 1] == rest[2 * (i - 1) + 1];
            assert Texts(results)[i] == Texts(results[1..])[i - 1];
          }
        }
      }
    }
  }

  /** One event is one logical line: reading back everything a sequence of
      emits wrote gives the texts of the events that had one, provided none
      after the first begins with a tab. */
  lemma ReadBackTranscript(results: seq<Option<string>>)
    requires forall i :: 0 < i < |Texts(results)| ==> !StartsWithTab(Texts(results)[i])
    ensures Decode(Written(Transcript(results))) == Texts(results)
  {
    WrittenTranscript(results);
    DecodeStream(Texts(results));
  }
}
