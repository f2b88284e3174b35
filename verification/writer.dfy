/**
  `ColorWriter`: a destination tag and the current colour selection
  (`choice`), the constructor, `print`, `set_color` and `reset`.
  The stream itself is not modelled; `print` returns the one buffer it
  hands to the stream's write call.
 */
module Writer {
  import opened Wrappers
  import opened Utf8
  import opened Colors
  import opened Frame

  /** Which process stream the writer was built for. */
  datatype StreamKind = Stdout | Stderr

  /** The writer's state: its destination and the current colour parameter
      as text ("" for the terminal's default colour). */
  datatype ColorWriter = ColorWriter(stream: StreamKind, choice: string)

  /** The invariant on `choice`: empty, or the parameter of one of the six colours. */
  predicate Valid(w: ColorWriter) {
    w.choice == "" || IsCode(w.choice)
  }

  /** `ColorWriter::new`: the selection is the colour's parameter when a
      colour is given and empty otherwise, whatever the stream. */
  function New(kind: StreamKind, color: Option<Color>): (w: ColorWriter)
    ensures w.stream == kind
    ensures Valid(w)
    ensures w.choice == "" <==> color.None?
    ensures color.Some? ==> ColorOf(w.choice) == color
  {
    match color
    case Some(c) =>
      ColorOfCode(c);
      ColorWriter(kind, Code(c))
    case None => ColorWriter(kind, "")
  }

  /** The stream kind never affects the selection `new` makes. */
  lemma NewChoiceIgnoresStream(k1: StreamKind, k2: StreamKind, color: Option<Color>)
    ensures New(k1, color).choice == New(k2, color).choice
  {
  }

  /** `set_color`: the state its body computes, with the colour's parameter selected.
      The library takes the writer by value, so the caller no longer holds it. */
  function SetColor(w: ColorWriter, color: Color): (w': ColorWriter)
    ensures w'.stream == w.stream
    ensures Valid(w')
    ensures ColorOf(w'.choice) == Some(color)
  {
    ColorOfCode(color);
    w.(choice := Code(color))
  }

  /** `reset`: the state its body computes, with the selection cleared.
      The library takes the writer by value, so the caller no longer holds it. */
  function Reset(w: ColorWriter): (w': ColorWriter)
    ensures w'.stream == w.stream
    ensures Valid(w')
    ensures w'.choice == "" && !IsCode(w'.choice)
  {
    w.(choice := "")
  }

  /** The bytes of a valid selection: nothing, or the ASCII digits "3" and
      "1".."7". None of them is the final byte `m`. */
  lemma ChoiceBytes(w: ColorWriter)
    requires Valid(w)
    ensures IsAscii(w.choice)
    ensures w.choice == "" ==> AsBytes(w.choice) == []
    ensures w.choice != "" ==> |AsBytes(w.choice)| == 2
    ensures FINAL_M !in AsBytes(w.choice)
  {
    if w.choice != "" {
      CodeOfColorOf(w.choice);
      var b := AsBytes(w.choice);
      assert b[0] == 0x33 && 0x31 <= b[1] <= 0x37;
      assert b == [b[0], b[1]];
    }
  }

  /** What one `print` call produces: the writer, which `print` leaves as it
      was, and the single buffer handed to the stream's write call. */
  datatype Printed = Printed(writer: ColorWriter, buffer: seq<byte>)

  /** `print`: frames the payload with the current selection's bytes. On a
      valid writer the buffer is 9 bytes longer than the payload when a
      colour is selected and 7 bytes longer when none is, and it parses
      back into the selection and the payload. */
  function Print(w: ColorWriter, payload: seq<byte>): (r: Printed)
    ensures r.writer == w
    ensures r.buffer == FormatStr(payload, AsBytes(w.choice))
    ensures Valid(w) ==> |r.buffer| == |payload| + (if w.choice == "" then 7 else 9)
    ensures Valid(w) ==> Parse(r.buffer) == Some(Parts(AsBytes(w.choice), payload))
  {
    var buffer := FormatStr(payload, AsBytes(w.choice));
    if Valid(w) then
      ChoiceBytes(w);
      ParseFormatStr(payload, AsBytes(w.choice));
      Printed(w, buffer)
    else
      Printed(w, buffer)
  }

  /** The colour a printed buffer shows can be read back from its bytes:
      the buffer's parameter is that of colour `c` exactly when `c` is the
      writer's selection. */
  lemma PrintShowsSelection(w: ColorWriter, payload: seq<byte>, c: Color)
    requires Valid(w)
    ensures Parse(Print(w, payload).buffer).Some?
    ensures Parse(Print(w, payload).buffer).value.code == AsBytes(Code(c)) <==> w.choice == Code(c)
  {
    ChoiceBytes(w);
    AsciiAsBytesInjective(w.choice, Code(c));
  }

  /** A buffer as the writer emits it: a frame whose parameter is empty or
      the bytes of one colour's parameter. */
  ghost predicate WellFormedBuffer(buf: seq<byte>) {
    match Parse(buf)
    case None => false
    case Some(parts) => parts.code == [] || exists c :: parts.code == AsBytes(Code(c))
  }

  /** One call on a writer. */
  datatype Op = PrintOp(payload: seq<byte>) | SetColorOp(color: Color) | ResetOp

  /** How many `print` calls `ops` holds. */
  function PrintCount(ops: seq<Op>): nat
    decreases |ops|
  {
    if ops == [] then 0
    else (if ops[0].PrintOp? then 1 else 0) + PrintCount(ops[1..])
  }

  /** The final state after a sequence of calls, and the buffers written, in order. */
  datatype Trace = Trace(writer: ColorWriter, written: seq<seq<byte>>)

  /** Applies `ops` in order from `w`, collecting what each `print` emits.
      Each `set_color` or `reset` passes on the state its body computes;
      the library consumes the writer there, so only `Realizable` sequences
      can be written against it. */
  function Run(w: ColorWriter, ops: seq<Op>): (t: Trace)
    ensures t.writer.stream == w.stream
    ensures |t.written| == PrintCount(ops) <= |ops|
    decreases |ops|
  {
    if ops == [] then Trace(w, [])
    else
      match ops[0]
      case PrintOp(p) =>
        var r := Print(w, p);
        var t := Run(r.writer, ops[1..]);
        Trace(t.writer, [r.buffer] + t.written)
      case SetColorOp(c) => Run(SetColor(w, c), ops[1..])
      case ResetOp => Run(Reset(w), ops[1..])
  }

  /** The selection stays valid across any sequence of calls, and every
      buffer written on the way is a well-formed frame. */
  lemma {:induction false} RunKeepsValid(w: ColorWriter, ops: seq<Op>)
    requires Valid(w)
    ensures Valid(Run(w, ops).writer)
    ensures forall i :: 0 <= i < |Run(w, ops).written| ==> WellFormedBuffer(Run(w, ops).written[i])
    decreases |ops|
  {
    if ops != [] {
      match ops[0]
      case PrintOp(p) =>
        var r := Print(w, p);
        RunKeepsValid(r.writer, ops[1..]);
        if w.choice != "" {
          var c := ColorOf(w.choice).value;
          CodeOfColorOf(w.choice);
          assert Parse(r.buffer).value.code == AsBytes(Code(c));
        }
        assert WellFormedBuffer(r.buffer);
      case SetColorOp(c) =>
        RunKeepsValid(SetColor(w, c), ops[1..]);
      case ResetOp =>
        RunKeepsValid(Reset(w), ops[1..]);
    }
  }

  /** Running `a` then `b` is running `a + b`. */
  lemma {:induction false} RunAppend(w: ColorWriter, a: seq<Op>, b: seq<Op>)
    ensures Run(w, a + b).writer == Run(Run(w, a).writer, b).writer
    ensures Run(w, a + b).written == Run(w, a).written + Run(Run(w, a).writer, b).written
    decreases |a|
  {
    if a == [] {
      assert a + b == b;
    } else {
      assert (a + b)[0] == a[0];
      assert (a + b)[1..] == a[1..] + b;
      match a[0]
      case PrintOp(p) =>
        var r := Print(w, p);
        RunAppend(r.writer, a[1..], b);
        assert Run(w, a + b).written == [r.buffer] + Run(r.writer, a[1..] + b).written;
        assert Run(w, a).written == [r.buffer] + Run(r.writer, a[1..]).written;
      case SetColorOp(c) =>
        assert Run(w, a + b) == Run(SetColor(w, c), a[1..] + b);
        assert Run(w, a) == Run(SetColor(w, c), a[1..]);
        RunAppend(SetColor(w, c), a[1..], b);
      case ResetOp =>
        assert Run(w, a + b) == Run(Reset(w), a[1..] + b);
        assert Run(w, a) == Run(Reset(w), a[1..]);
        RunAppend(Reset(w), a[1..], b);
    }
  }

  /** The selection after `ops`, read from the end: the last `set_color` or
      `reset` decides it, and `print` never changes it. */
  function ChoiceAfter(initial: string, ops: seq<Op>): string
    decreases |ops|
  {
    if ops == [] then initial
    else
      match ops[|ops| - 1]
      case SetColorOp(c) => Code(c)
      case ResetOp => ""
      case PrintOp(_) => ChoiceAfter(initial, ops[..|ops| - 1])
  }

  /** Running the calls leaves exactly the selection the last assignment made. */
  lemma {:induction false} RunChoice(w: ColorWriter, ops: seq<Op>)
    ensures Run(w, ops).writer.choice == ChoiceAfter(w.choice, ops)
    decreases |ops|
  {
    if ops != [] {
      var front := ops[..|ops| - 1];
      var last := ops[|ops| - 1];
      assert ops == front + [last];
      RunAppend(w, front, [last]);
      RunChoice(w, front);
      var mid := Run(w, front).writer;
      assert [last][1..] == [];
      match last
      case PrintOp(p) =>
        assert Run(mid, [last]).writer == Run(Print(mid, p).writer, []).writer;
      case SetColorOp(c) =>
        assert Run(mid, [last]).writer == Run(SetColor(mid, c), []).writer;
      case ResetOp =>
        assert Run(mid, [last]).writer == Run(Reset(mid), []).writer;
    }
  }

  /** The call sequences the library admits on one writer: `set_color` and
      `reset` take the writer by value, so only the last call may be one of them. */
  predicate Realizable(ops: seq<Op>) {
    forall i :: 0 <= i < |ops| - 1 ==> ops[i].PrintOp?
  }

  /** On every sequence the library admits, each buffer comes from a `print`
      at the same position and carries the selection `w` started with,
      and every `print` emits one. */
  lemma {:induction false} RealizablePrintsInitialChoice(w: ColorWriter, ops: seq<Op>)
    requires Realizable(ops)
    ensures forall i :: 0 <= i < |Run(w, ops).written| ==>
              i < |ops| && ops[i].PrintOp? &&
              Run(w, ops).written[i] == FormatStr(ops[i].payload, AsBytes(w.choice))
    ensures forall i :: 0 <= i < |ops| && ops[i].PrintOp? ==> i < |Run(w, ops).written|
    decreases |ops|
  {
    if ops != [] {
      match ops[0]
      case PrintOp(p) =>
        var tail := ops[1..];
        assert Realizable(tail) by {
          forall i | 0 <= i < |tail| - 1 ensures tail[i].PrintOp? {
            assert tail[i] == ops[i + 1];
          }
        }
        RealizablePrintsInitialChoice(w, tail);
        var written := Run(w, ops).written;
        assert written == [Print(w, p).buffer] + Run(w, tail).written;
        forall i | 0 <= i < |written|
          ensures i < |ops| && ops[i].PrintOp? &&
                  written[i] == FormatStr(ops[i].payload, AsBytes(w.choice))
        {
          if i == 0 {
            assert written[0] == Print(w, p).buffer;
          } else {
            assert written[i] == Run(w, tail).written[i - 1];
            assert ops[i] == tail[i - 1];
          }
        }
        forall i | 0 <= i < |ops| && ops[i].PrintOp? ensures i < |written| {
          if i > 0 {
            assert ops[i] == tail[i - 1];
          }
        }
      case SetColorOp(c) =>
        assert |ops| == 1;
        assert Run(w, ops) == Run(SetColor(w, c), []);
        assert Run(w, ops).written == [];
      case ResetOp =>
        assert |ops| == 1;
        assert Run(w, ops) == Run(Reset(w), []);
        assert Run(w, ops).written == [];
    } else {
      assert Run(w, ops).written == [];
    }
  }

  /** A green writer on standard output prints "ok" as `ESC [ 3 2 m o k ESC [ 0 m`. */
  lemma GreenOkScenario()
    ensures Print(New(Stdout, Some(Green)), [0x6F, 0x6B]).buffer ==
            [0x1B, 0x5B, 0x33, 0x32, 0x6D, 0x6F, 0x6B, 0x1B, 0x5B, 0x30, 0x6D]
  {
    assert New(Stdout, Some(Green)).choice == "32";
    assert AsBytes("32") == [0x33, 0x32] by {
      assert "32"[1..] == "2";
      assert "2"[1..] == [];
    }
  }

  /** An uncoloured writer on standard error still frames its payload:
      "warn" goes out as `ESC [ m w a r n ESC [ 0 m`. */
  lemma UncolouredWarnScenario()
    ensures New(Stderr, None).stream == Stderr
    ensures Print(New(Stderr, None), [0x77, 0x61, 0x72, 0x6E]).buffer ==
            [0x1B, 0x5B, 0x6D, 0x77, 0x61, 0x72, 0x6E, 0x1B, 0x5B, 0x30, 0x6D]
    ensures |Print(New(Stderr, None), [0x68, 0x65, 0x6C, 0x6C, 0x6F]).buffer| == 12
  {
    assert AsBytes(New(Stderr, None).choice) == [];
  }

  /** Printing from the state `set_color(Blue)`'s body computes would carry
      "34", and from the state a further `reset` computes, the empty
      parameter; an empty payload keeps the frame. The library consumes the
      writer in both calls, so no Rust program prints from these states. */
  lemma BlueThenResetScenario(w: ColorWriter)
    ensures Print(SetColor(w, Blue), [0x78]).buffer ==
            [0x1B, 0x5B, 0x33, 0x34, 0x6D, 0x78, 0x1B, 0x5B, 0x30, 0x6D]
    ensures Print(Reset(SetColor(w, Blue)), [0x78]).buffer ==
            [0x1B, 0x5B, 0x6D, 0x78, 0x1B, 0x5B, 0x30, 0x6D]
    ensures Print(SetColor(w, Blue), []).buffer == CSI + [0x33, 0x34, FINAL_M] + RESET
  {
    var blue := SetColor(w, Blue);
    assert blue.choice == "34";
    assert AsBytes("34") == [0x33, 0x34] by {
      assert "34"[1..] == "4";
      assert "4"[1..] == [];
    }
    assert Print(blue, [0x78]).buffer == CSI + ([0x33, 0x34] + [FINAL_M]) + [0x78] + RESET;
    var plain := Reset(blue);
    assert plain.choice == "" && AsBytes(plain.choice) == [];
    assert Print(plain, [0x78]).buffer == CSI + ([] + [FINAL_M]) + [0x78] + RESET;
  }
}
