/**
 * The server-sent-event protocol the chat window reads the completion
 * stream with: the received text is cut into lines at each "\n", a line
 * starting with "data:" carries a payload, the payload "[DONE]" ends the
 * stream, and every other payload is decoded as a JSON completion chunk
 * whose first choice may carry a piece ("delta") of the reply.
 *
 * JSON decoding is not modelled: it is the parameter `decode`, which maps
 * a payload to the `Frame` that `JSON.parse` followed by
 * `choices?.[0]?.delta?.content` yields.
 */
module StreamParser {
  import opened Types
  import opened Strings

  const DataPrefix: string := "data:"
  const DoneSentinel: string := "[DONE]"
  const NewLine: char := '\n'

  /**
   * A decoded payload: `Malformed` when `JSON.parse` throws or when it
   * yields a value whose `choices` lookup throws (such as `null`, for the
   * payload `null`); otherwise the value of `choices?.[0]?.delta?.content`
   * (`None` when the path is missing).
   */
  datatype Frame = Malformed | Parsed(delta: Option<string>)

  /** How the stream loop treats one line. */
  datatype Line = Ignored | Stop | Payload(data: string)

  /**
   * `line` is "data:", then white space, then `data`, where `data` does
   * not itself start with white space: what `line.replace(/^data:\s*\/, "")`
   * leaves is exactly `data`.
   */
  predicate DataLine(line: string, data: string) {
    |DataPrefix| + |data| <= |line| && StartsWith(line, DataPrefix)
    && IsBlank(line[|DataPrefix|..|line| - |data|])
    && line[|line| - |data|..] == data
    && (data == [] || !IsWhitespace(data[0]))
  }

  /** The line filter and payload extraction of the stream loop. */
  function Classify(line: string): (r: Line)
    ensures r.Ignored? <==> !StartsWith(line, DataPrefix)
    ensures r.Stop? ==> DataLine(line, DoneSentinel)
    ensures r.Payload? ==> DataLine(line, r.data) && r.data != DoneSentinel
  {
    if !StartsWith(line, DataPrefix) then Ignored
    else
      var rest := line[|DataPrefix|..];
      var data := TrimStart(rest);
      assert rest[..|rest| - |data|] == line[|DataPrefix|..|line| - |data|];
      assert rest[|rest| - |data|..] == line[|line| - |data|..];
      if data == DoneSentinel then Stop else Payload(data)
  }

  /** A line ends the stream exactly when it is "data:", white space, and "[DONE]". */
  lemma StopIff(line: string)
    ensures Classify(line).Stop? <==> DataLine(line, DoneSentinel)
  {
    if DataLine(line, DoneSentinel) {
      var n := |line| - |DoneSentinel|;
      assert line[|DataPrefix|..] == line[|DataPrefix|..n] + DoneSentinel;
      TrimStartAfterBlank(line[|DataPrefix|..n], DoneSentinel);
    }
  }

  /**
   * A "[DONE]" line that arrives with a "\r\n" ending keeps its "\r"
   * once split at "\n", so it is taken for an ordinary payload.
   */
  lemma CarriageReturnDone()
    ensures Classify("data: [DONE]\r") == Payload("[DONE]\r")
  {
    var line := "data: [DONE]\r";
    assert line[|DataPrefix|..] == " [DONE]\r";
    TrimStartAfterBlank(" ", "[DONE]\r");
    assert " " + "[DONE]\r" == " [DONE]\r";
  }

  /**
   * The piece of the reply a classified line carries: the delta of a
   * payload that decodes, when that delta is a non-empty string (`if (delta)`).
   */
  function LineDelta(kind: Line, decode: string -> Frame): (delta: Option<string>) {
    match kind
    case Payload(data) =>
      var frame := decode(data);
      if frame.Parsed? && frame.delta.Some? && frame.delta.value != [] then Some(frame.delta.value) else None
    case _ => None
  }

  /** Every line of `lines`, classified, in order. */
  function Kinds(lines: seq<string>): (r: seq<Line>)
    ensures |r| == |lines|
    decreases |lines|
  {
    if lines == [] then [] else [Classify(lines[0])] + Kinds(lines[1..])
  }

  /** The `k`-th kind is the classification of the `k`-th line. */
  lemma {:induction false} KindsAt(lines: seq<string>, k: nat)
    requires k < |lines|
    ensures Kinds(lines)[k] == Classify(lines[k])
    decreases |lines|
  {
    if k > 0 {
      KindsAt(lines[1..], k - 1);
    }
  }

  /** Classifying two runs of lines classifies each of them. */
  lemma {:induction false} KindsAppend(a: seq<string>, b: seq<string>)
    ensures Kinds(a + b) == Kinds(a) + Kinds(b)
    decreases |a|
  {
    if a == [] {
      assert a + b == b;
    } else {
      var ab := a + b;
      assert ab[0] == a[0];
      assert ab[1..] == a[1..] + b;
      KindsAppend(a[1..], b);
    }
  }

  /** The kinds of the first `j + 1` lines: those of the first `j`, then the `j`-th. */
  lemma KindsSnoc(lines: seq<string>, j: nat)
    requires j < |lines|
    ensures Kinds(lines[..j + 1]) == Kinds(lines[..j]) + [Classify(lines[j])]
  {
    assert lines[..j + 1] == lines[..j] + [lines[j]];
    KindsAppend(lines[..j], [lines[j]]);
    var single := [lines[j]];
    assert single[1..] == [];
  }

  /**
   * The pieces of the reply that a run of classified lines delivers, in
   * order: the non-empty deltas of the payloads before the first "[DONE]".
   */
  function Deltas(kinds: seq<Line>, decode: string -> Frame): (ds: seq<string>)
    decreases |kinds|
  {
    if kinds == [] || kinds[0].Stop? then []
    else
      var rest := Deltas(kinds[1..], decode);
      match LineDelta(kinds[0], decode)
      case None => rest
      case Some(d) => [d] + rest
  }

  /** Some line of the run ends the stream. */
  predicate Stops(kinds: seq<Line>) {
    Stop in kinds
  }

  /** Reading more lines extends the deltas, unless the stream has already ended. */
  lemma {:induction false} DeltasAppend(a: seq<Line>, b: seq<Line>, decode: string -> Frame)
    ensures Deltas(a + b, decode) == if Stops(a) then Deltas(a, decode) else Deltas(a, decode) + Deltas(b, decode)
    decreases |a|
  {
    if a == [] {
      assert a + b == b;
    } else {
      var ab := a + b;
      assert ab[0] == a[0];
      assert ab[1..] == a[1..] + b;
      assert a == [a[0]] + a[1..];
      DeltasAppend(a[1..], b, decode);
    }
  }

  /** Lines after the first "[DONE]" are never read. */
  lemma UntilStop(kinds: seq<Line>, k: nat, decode: string -> Frame)
    requires k < |kinds| && kinds[k].Stop?
    ensures Stops(kinds)
    ensures Deltas(kinds, decode) == Deltas(kinds[..k], decode)
  {
    assert kinds == kinds[..k] + kinds[k..];
    DeltasAppend(kinds[..k], kinds[k..], decode);
    if !Stops(kinds[..k]) {
      assert kinds[k..][0] == kinds[k];
    }
  }

  /**
   * One line read after lines that did not stop the stream: it stops the
   * stream exactly when it is "[DONE]", and otherwise adds the delta of
   * its payload, if any.
   */
  lemma LineStep(before: seq<Line>, kind: Line, decode: string -> Frame)
    requires !Stops(before)
    ensures Stops(before + [kind]) <==> kind.Stop?
    ensures LineDelta(kind, decode).None? ==> Deltas(before + [kind], decode) == Deltas(before, decode)
    ensures LineDelta(kind, decode).Some? ==>
      Deltas(before + [kind], decode) == Deltas(before, decode) + [LineDelta(kind, decode).value]
  {
    DeltasAppend(before, [kind], decode);
    var single := [kind];
    assert single[1..] == [];
  }

  /** Once the first `j` lines of `lines` stop the stream, the rest of them changes nothing. */
  lemma StopAfter(before: seq<Line>, lines: seq<string>, j: nat, decode: string -> Frame)
    requires j <= |lines| && Stops(before + Kinds(lines[..j]))
    ensures Stops(before + Kinds(lines))
    ensures Deltas(before + Kinds(lines), decode) == Deltas(before + Kinds(lines[..j]), decode)
  {
    assert lines == lines[..j] + lines[j..];
    KindsAppend(lines[..j], lines[j..]);
    AppendAssoc(before, Kinds(lines[..j]), Kinds(lines[j..]));
    DeltasAppend(before + Kinds(lines[..j]), Kinds(lines[j..]), decode);
  }

  /**
   * The messages handed to the host while the reply grows: one copy of
   * `reply` per delta, the n-th carrying the first n deltas.
   */
  function Commits(reply: ChatMessage, ds: seq<string>): (r: seq<ChatMessage>)
    ensures |r| == |ds|
    decreases |ds|
  {
    if ds == [] then []
    else
      var next := reply.(content := reply.content + ds[0]);
      [next] + Commits(next, ds[1..])
  }

  /** Each commit is `reply` carrying all text received up to and including its delta. */
  lemma {:induction false} CommitsContent(reply: ChatMessage, ds: seq<string>, k: nat)
    requires k < |ds|
    ensures Commits(reply, ds)[k] == reply.(content := reply.content + Concat(ds[..k + 1]))
    decreases |ds|
  {
    var next := reply.(content := reply.content + ds[0]);
    if k == 0 {
      assert ds[..1] == [ds[0]];
      assert Concat(ds[..1]) == ds[0] + Concat([]);
    } else {
      CommitsContent(next, ds[1..], k - 1);
      assert ds[..k + 1][1..] == ds[1..][..k];
      assert Concat(ds[..k + 1]) == ds[0] + Concat(ds[1..][..k]);
    }
  }

  /** One more delta adds one more commit, carrying the whole text so far. */
  lemma {:induction false} CommitsSnoc(reply: ChatMessage, ds: seq<string>, d: string)
    ensures Commits(reply, ds + [d]) == Commits(reply, ds) + [reply.(content := reply.content + Concat(ds + [d]))]
    decreases |ds|
  {
    if ds == [] {
      var next := reply.(content := reply.content + d);
      assert ds + [d] == [d];
      assert [d][1..] == [];
      assert Commits(reply, [d]) == [next] + Commits(next, []);
      assert Concat([d]) == d + Concat([]) == d;
      assert Commits(reply, ds) == [];
    } else {
      var next := reply.(content := reply.content + ds[0]);
      assert (ds + [d])[0] == ds[0];
      assert (ds + [d])[1..] == ds[1..] + [d];
      var tail := Commits(next, ds[1..]);
      CommitsSnoc(next, ds[1..], d);
      assert Commits(reply, ds + [d]) == [next] + (tail + [next.(content := next.content + Concat(ds[1..] + [d]))]);
      assert Concat(ds + [d]) == ds[0] + Concat(ds[1..] + [d]);
      assert next.content + Concat(ds[1..] + [d]) == reply.content + Concat(ds + [d]);
    }
  }

  /** The complete lines received in `chunks`: the text up to its last "\n", split at each "\n". */
  function Lines(chunks: seq<string>): (lines: seq<string>) {
    LeadingPieces(Concat(chunks), NewLine)
  }

  /** What the buffer holds after `chunks`: the text after the last "\n". */
  function Pending(chunks: seq<string>): (buffer: string) {
    LastPiece(Concat(chunks), NewLine)
  }

  /**
   * Nothing received is lost or duplicated: the complete lines and the
   * buffer, joined with "\n", are the received text, and no line holds a
   * "\n".
   */
  lemma LinesReassemble(chunks: seq<string>)
    ensures Join(Lines(chunks) + [Pending(chunks)], NewLine) == Concat(chunks)
    ensures NewLine !in Pending(chunks)
    ensures forall k :: 0 <= k < |Lines(chunks)| ==> NewLine !in Lines(chunks)[k]
  {
    var parts := Split(Concat(chunks), NewLine);
    assert Lines(chunks) + [Pending(chunks)] == parts;
    JoinSplit(Concat(chunks), NewLine);
    SplitPiecesFree(Concat(chunks), NewLine);
    assert forall k :: 0 <= k < |Lines(chunks)| ==> Lines(chunks)[k] == parts[k];
  }

  /**
   * One round of the loop: appending a chunk to the buffer and splitting
   * yields the lines that chunk completes, and the new buffer.
   */
  lemma LinesStep(chunks: seq<string>, chunk: string)
    ensures Lines(chunks + [chunk]) == Lines(chunks) + LeadingPieces(Pending(chunks) + chunk, NewLine)
    ensures Pending(chunks + [chunk]) == LastPiece(Pending(chunks) + chunk, NewLine)
  {
    ConcatSnoc(chunks, chunk);
    LeadingAppend(Concat(chunks), chunk, NewLine);
  }

  /** The round of the loop that reads chunk `i`, stated on prefixes of the chunks. */
  lemma ChunkStep(chunks: seq<string>, i: nat)
    requires i < |chunks|
    ensures Lines(chunks[..i + 1]) == Lines(chunks[..i]) + LeadingPieces(Pending(chunks[..i]) + chunks[i], NewLine)
    ensures Pending(chunks[..i + 1]) == LastPiece(Pending(chunks[..i]) + chunks[i], NewLine)
  {
    assert chunks[..i + 1] == chunks[..i] + [chunks[i]];
    LinesStep(chunks[..i], chunks[i]);
  }

  /** How the chunks after the first `i` extend the lines of the first `i`. */
  lemma LinesPrefix(chunks: seq<string>, i: nat)
    requires i <= |chunks|
    ensures Lines(chunks) == Lines(chunks[..i]) + LeadingPieces(Pending(chunks[..i]) + Concat(chunks[i..]), NewLine)
  {
    assert chunks == chunks[..i] + chunks[i..];
    ConcatAppend(chunks[..i], chunks[i..]);
    LeadingAppend(Concat(chunks[..i]), Concat(chunks[i..]), NewLine);
  }

  /** A trailing partial line (no "\n" after it) is never parsed. */
  lemma TrailingLineIgnored(chunks: seq<string>, tail: string)
    requires NewLine !in tail
    ensures Lines(chunks + [tail]) == Lines(chunks)
  {
    LinesStep(chunks, tail);
    LinesReassemble(chunks);
    var t := Pending(chunks) + tail;
    assert NewLine !in t by {
      forall k | 0 <= k < |t| ensures t[k] != NewLine {
        if k < |Pending(chunks)| { assert t[k] == Pending(chunks)[k]; }
        else { assert t[k] == tail[k - |Pending(chunks)|]; }
      }
    }
    NoSepPieces(t, NewLine);
  }

  /** The received lines, classified. */
  function Events(chunks: seq<string>): (kinds: seq<Line>) {
    Kinds(Lines(chunks))
  }

  /** The round of the loop that reads chunk `i`, stated on the classified lines. */
  lemma EventsStep(chunks: seq<string>, i: nat)
    requires i < |chunks|
    ensures Events(chunks[..i + 1]) == Events(chunks[..i]) + Kinds(LeadingPieces(Pending(chunks[..i]) + chunks[i], NewLine))
  {
    ChunkStep(chunks, i);
    KindsAppend(Lines(chunks[..i]), LeadingPieces(Pending(chunks[..i]) + chunks[i], NewLine));
  }

  /**
   * Once the lines of the first `i` chunks hold "[DONE]", the rest of the
   * stream changes nothing: the loop may stop reading.
   */
  lemma StopIsFinal(chunks: seq<string>, i: nat, decode: string -> Frame)
    requires i <= |chunks| && Stops(Events(chunks[..i]))
    ensures Stops(Events(chunks))
    ensures Deltas(Events(chunks), decode) == Deltas(Events(chunks[..i]), decode)
  {
    var later := LeadingPieces(Pending(chunks[..i]) + Concat(chunks[i..]), NewLine);
    LinesPrefix(chunks, i);
    KindsAppend(Lines(chunks[..i]), later);
    DeltasAppend(Events(chunks[..i]), Kinds(later), decode);
  }
}
