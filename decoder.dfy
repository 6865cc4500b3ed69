/** Turning the chunks of a streamed chat reply into text fragments, as the
    client's two stream readers do: one for the event-stream framing of the
    cloud provider (lines `data: <json>`, closed by `data: [DONE]`), one for
    the newline-delimited JSON of the local provider. Every chunk is split on
    line feeds on its own: nothing is carried from one chunk to the next. */
module Decoder {
  import opened Text

  datatype Option<T> = None | Some(value: T)

  /** The two wire formats: event-stream framing (cloud provider) and
      newline-delimited JSON (local provider). */
  datatype Format = EventStream | NdJson

  /** `JSON.parse` of a payload followed by the format's field lookup
      (`choices[0].delta.content` for the event stream, `message.content`
      for newline-delimited JSON). `None` stands for a payload that does not
      parse or has no such field. */
  type Extractor = string -> Option<string>

  const DataPrefix: string := "data: "
  const DoneSentinel: string := "[DONE]"
  const FenceMarker: string := "```"

  /** The line filter applied to a split chunk: `startsWith('data: ')` for
      the event stream, `filter(Boolean)` (drop empty lines) for
      newline-delimited JSON. */
  predicate IsKept(fmt: Format, line: string)
  {
    match fmt
    case EventStream => StartsWith(line, DataPrefix)
    case NdJson => line != []
  }

  /** The lines that pass the filter, in their original order. */
  function KeepLines(fmt: Format, lines: seq<string>): seq<string>
  {
    if lines == [] then []
    else (if IsKept(fmt, lines[0]) then [lines[0]] else []) + KeepLines(fmt, lines[1..])
  }

  /** A line survives the filter exactly when it is one of the lines and
      passes the test. */
  lemma {:induction false} KeepLinesMembers(fmt: Format, lines: seq<string>, l: string)
    ensures l in KeepLines(fmt, lines) <==> l in lines && IsKept(fmt, l)
  {
    if lines != [] {
      KeepLinesMembers(fmt, lines[1..], l);
      assert lines == [lines[0]] + lines[1..];
    }
  }

  /** `chunk.split('\n').filter(...)`. */
  function KeptLines(fmt: Format, chunk: string): seq<string>
  {
    KeepLines(fmt, Split(chunk, '\n'))
  }

  /** What is handed to `JSON.parse`: `line.slice(6)` for the event stream,
      the line itself for newline-delimited JSON. */
  function Payload(fmt: Format, line: string): string
  {
    match fmt
    case EventStream => Slice(line, |DataPrefix|)
    case NdJson => line
  }

  /** The text one kept line adds to the reply: nothing for the `[DONE]`
      sentinel of the event stream, nothing when the payload does not parse
      or the field is missing, and nothing when the field is the empty
      string (`|| ''` followed by `if (text)`, or `if (json.message?.content)`). */
  function LineText(fmt: Format, line: string, ex: Extractor): Option<string>
  {
    if fmt == EventStream && Payload(fmt, line) == DoneSentinel then None
    else
      match ex(Payload(fmt, line))
      case Some(t) => if t != [] then Some(t) else None
      case None => None
  }

  /** A present text as a one-element list, an absent one as none. */
  function AsList(o: Option<string>): seq<string>
  {
    match o
    case Some(t) => [t]
    case None => []
  }

  /** The fragments a list of kept lines yields, in line order. */
  function LinesFragments(fmt: Format, lines: seq<string>, ex: Extractor): seq<string>
  {
    if lines == [] then []
    else
      AsList(LineText(fmt, lines[0], ex)) + LinesFragments(fmt, lines[1..], ex)
  }

  /** The fragments one chunk yields, the chunk split on its own. */
  function ChunkFragments(fmt: Format, chunk: string, ex: Extractor): seq<string>
  {
    LinesFragments(fmt, KeptLines(fmt, chunk), ex)
  }

  /** The lists `f` gives for the elements of `xs`, one after another. */
  function FlatMap(f: string -> seq<string>, xs: seq<string>): seq<string>
  {
    if xs == [] then [] else f(xs[0]) + FlatMap(f, xs[1..])
  }

  lemma {:induction false} FlatMapAppend(f: string -> seq<string>, a: seq<string>, b: seq<string>)
    ensures FlatMap(f, a + b) == FlatMap(f, a) + FlatMap(f, b)
  {
    if a == [] {
      assert a + b == b;
    } else {
      assert (a + b)[1..] == a[1..] + b;
      FlatMapAppend(f, a[1..], b);
      AppendAssociates(f(a[0]), FlatMap(f, a[1..]), FlatMap(f, b));
    }
  }

  lemma {:induction false} FlatMapSingle(f: string -> seq<string>, x: string)
    ensures FlatMap(f, [x]) == f(x)
  {
    assert [x][1..] == [];
    assert f(x) + [] == f(x);
  }

  /** The fragments of a whole response body, chunk after chunk. */
  function StreamFragments(fmt: Format, chunks: seq<string>, ex: Extractor): seq<string>
  {
    FlatMap(c => ChunkFragments(fmt, c, ex), chunks)
  }

  /** `fullResponse` once the body is drained. */
  function Reply(fmt: Format, chunks: seq<string>, ex: Extractor): string
  {
    Concat(StreamFragments(fmt, chunks, ex))
  }

  /** How a fragment is written to the terminal: highlighted (yellow) when it
      contains a code fence, plain (white) otherwise. */
  datatype Style = Highlighted | Plain
  datatype Shown = Shown(style: Style, text: string)

  function StyleOf(text: string): Style
  {
    if Contains(text, FenceMarker) then Highlighted else Plain
  }

  /** What the terminal receives for a list of fragments, one write each. */
  function Display(fragments: seq<string>): seq<Shown>
  {
    if fragments == [] then []
    else [Shown(StyleOf(fragments[0]), fragments[0])] + Display(fragments[1..])
  }

  // ---------------------------------------------------------------------
  // The two stream readers

  /** The read loop of the cloud provider's stream reader: every chunk is
      split and filtered on its own, the `[DONE]` payload is skipped, a
      payload that does not parse is ignored, and every non-empty content is
      appended to the reply and written out in its style. */
  method DecodeEventStream(chunks: seq<string>, ex: Extractor) returns (full: string, shown: seq<Shown>)
    ensures full == Reply(EventStream, chunks, ex)
    ensures shown == Display(StreamFragments(EventStream, chunks, ex))
  {
    full, shown := "", [];
    ghost var fragments: seq<string> := [];
    for i := 0 to |chunks|
      invariant fragments == StreamFragments(EventStream, chunks[..i], ex)
      invariant full == Concat(fragments) && shown == Display(fragments)
    {
      var lines := KeepLines(EventStream, Split(chunks[i], '\n'));
      for j := 0 to |lines|
        invariant fragments == StreamFragments(EventStream, chunks[..i], ex) + LinesFragments(EventStream, lines[..j], ex)
        invariant full == Concat(fragments) && shown == Display(fragments)
      {
        LinesPrefixStep(EventStream, lines, j, ex);
        var data := Slice(lines[j], |DataPrefix|);
        if data == DoneSentinel {
          assert LineText(EventStream, lines[j], ex) == None;
          assert LinesFragments(EventStream, lines[..j], ex) + [] == LinesFragments(EventStream, lines[..j], ex);
          continue;
        }
        var parsed := ex(data);
        if parsed.Some? && parsed.value != [] {
          var text := parsed.value;
          assert LineText(EventStream, lines[j], ex) == Some(text);
          AppendAssociates(StreamFragments(EventStream, chunks[..i], ex), LinesFragments(EventStream, lines[..j], ex), [text]);
          AppendFragment(fragments, text);
          full := full + text;
          shown := shown + [Shown(StyleOf(text), text)];
          fragments := fragments + [text];
        } else {
          assert LineText(EventStream, lines[j], ex) == None;
          assert LinesFragments(EventStream, lines[..j], ex) + [] == LinesFragments(EventStream, lines[..j], ex);
        }
      }
      assert lines[..|lines|] == lines;
      assert ChunkFragments(EventStream, chunks[i], ex) == LinesFragments(EventStream, lines, ex);
      StreamPrefixStep(EventStream, chunks, i, ex);
    }
    assert chunks[..|chunks|] == chunks;
  }

  /** The read loop of the local provider's stream reader: every chunk is
      split on its own, empty lines are dropped, a line that does not parse
      is ignored, and every non-empty `message.content` is appended to the
      reply and written out in its style. */
  method DecodeNdJson(chunks: seq<string>, ex: Extractor) returns (full: string, shown: seq<Shown>)
    ensures full == Reply(NdJson, chunks, ex)
    ensures shown == Display(StreamFragments(NdJson, chunks, ex))
  {
    full, shown := "", [];
    ghost var fragments: seq<string> := [];
    for i := 0 to |chunks|
      invariant fragments == StreamFragments(NdJson, chunks[..i], ex)
      invariant full == Concat(fragments) && shown == Display(fragments)
    {
      var lines := KeepLines(NdJson, Split(chunks[i], '\n'));
      for j := 0 to |lines|
        invariant fragments == StreamFragments(NdJson, chunks[..i], ex) + LinesFragments(NdJson, lines[..j], ex)
        invariant full == Concat(fragments) && shown == Display(fragments)
      {
        LinesPrefixStep(NdJson, lines, j, ex);
        var parsed := ex(lines[j]);
        if parsed.Some? && parsed.value != [] {
          var text := parsed.value;
          assert LineText(NdJson, lines[j], ex) == Some(text);
          AppendAssociates(StreamFragments(NdJson, chunks[..i], ex), LinesFragments(NdJson, lines[..j], ex), [text]);
          AppendFragment(fragments, text);
          full := full + text;
          shown := shown + [Shown(StyleOf(text), text)];
          fragments := fragments + [text];
        } else {
          assert LineText(NdJson, lines[j], ex) == None;
          assert LinesFragments(NdJson, lines[..j], ex) + [] == LinesFragments(NdJson, lines[..j], ex);
        }
      }
      assert lines[..|lines|] == lines;
      assert ChunkFragments(NdJson, chunks[i], ex) == LinesFragments(NdJson, lines, ex);
      StreamPrefixStep(NdJson, chunks, i, ex);
    }
    assert chunks[..|chunks|] == chunks;
  }

  /** One step of a read loop: the fragments of the first j + 1 lines are
      those of the first j and then what line j yields. */
  lemma {:induction false} LinesPrefixStep(fmt: Format, lines: seq<string>, j: nat, ex: Extractor)
    requires j < |lines|
    ensures LinesFragments(fmt, lines[..j + 1], ex) ==
      LinesFragments(fmt, lines[..j], ex) + AsList(LineText(fmt, lines[j], ex))
  {
    LinesFragmentsAppend(fmt, lines[..j], [lines[j]], ex);
    assert lines[..j + 1] == lines[..j] + [lines[j]];
    assert [lines[j]][1..] == [];
  }

  /** The fragments of the first i + 1 chunks are those of the first i and
      then those of chunk i. */
  lemma {:induction false} StreamPrefixStep(fmt: Format, chunks: seq<string>, i: nat, ex: Extractor)
    requires i < |chunks|
    ensures StreamFragments(fmt, chunks[..i + 1], ex) ==
      StreamFragments(fmt, chunks[..i], ex) + ChunkFragments(fmt, chunks[i], ex)
  {
    var c := chunks[i];
    assert chunks[..i + 1] == chunks[..i] + [c];
    SingleChunk(fmt, c, ex);
    StreamFragmentsAppend(fmt, chunks[..i], [c], ex);
  }

  lemma {:induction false} SingleChunk(fmt: Format, c: string, ex: Extractor)
    ensures StreamFragments(fmt, [c], ex) == ChunkFragments(fmt, c, ex)
  {
    FlatMapSingle(c => ChunkFragments(fmt, c, ex), c);
  }

  /** A chunk without a line feed is a single line. */
  lemma {:induction false} SingleLineChunk(fmt: Format, l: string, ex: Extractor)
    requires '\n' !in l
    ensures ChunkFragments(fmt, l, ex) == if IsKept(fmt, l) then AsList(LineText(fmt, l, ex)) else []
  {
    SplitWithoutSeparator(l, '\n');
    KeepOneLine(fmt, l);
    if IsKept(fmt, l) {
      OneLineFragments(fmt, l, ex);
    }
  }

  /** Associativity of concatenation. Dafny proves it unaided; stating it
      as a call names the regrouping a proof needs, which keeps the solver
      from searching for it. It says nothing about the client. */
  lemma AppendAssociates(a: seq<string>, b: seq<string>, c: seq<string>)
    ensures a + b + c == a + (b + c)
  {
  }

  /** Appending a fragment extends the reply by its text and the display by
      one write of it. */
  lemma {:induction false} AppendFragment(fragments: seq<string>, text: string)
    ensures Concat(fragments + [text]) == Concat(fragments) + text
    ensures Display(fragments + [text]) == Display(fragments) + [Shown(StyleOf(text), text)]
  {
    ConcatAppend(fragments, [text]);
    DisplayAppend(fragments, [text]);
    assert [text][1..] == [];
  }

  // ---------------------------------------------------------------------
  // Properties of the decoding

  /** Lines are decoded one by one: the fragments of two runs of lines are
      those of the first followed by those of the second. */
  lemma {:induction false} LinesFragmentsAppend(fmt: Format, a: seq<string>, b: seq<string>, ex: Extractor)
    ensures LinesFragments(fmt, a + b, ex) == LinesFragments(fmt, a, ex) + LinesFragments(fmt, b, ex)
  {
    if a == [] {
      assert a + b == b;
    } else {
      assert (a + b)[1..] == a[1..] + b;
      LinesFragmentsAppend(fmt, a[1..], b, ex);
    }
  }

  /** A line that yields nothing (the sentinel, a payload that does not
      parse, a missing or empty field) does not stop the lines after it. */
  lemma {:induction false} SkippedLineDoesNotStop(fmt: Format, a: seq<string>, l: string, b: seq<string>, ex: Extractor)
    requires LineText(fmt, l, ex) == None
    ensures LinesFragments(fmt, a + [l] + b, ex) == LinesFragments(fmt, a, ex) + LinesFragments(fmt, b, ex)
  {
    LinesFragmentsAppend(fmt, a + [l], b, ex);
    LinesFragmentsAppend(fmt, a, [l], ex);
  }

  /** No state crosses a chunk boundary: the fragments of two runs of chunks
      are those of the first followed by those of the second. */
  lemma {:induction false} StreamFragmentsAppend(fmt: Format, a: seq<string>, b: seq<string>, ex: Extractor)
    ensures StreamFragments(fmt, a + b, ex) == StreamFragments(fmt, a, ex) + StreamFragments(fmt, b, ex)
  {
    FlatMapAppend(c => ChunkFragments(fmt, c, ex), a, b);
  }

  /** The reply of a body is the replies of its parts, chunk by chunk. */
  lemma {:induction false} ReplyAppend(fmt: Format, a: seq<string>, b: seq<string>, ex: Extractor)
    ensures Reply(fmt, a + b, ex) == Reply(fmt, a, ex) + Reply(fmt, b, ex)
  {
    StreamFragmentsAppend(fmt, a, b, ex);
    ConcatAppend(StreamFragments(fmt, a, ex), StreamFragments(fmt, b, ex));
  }

  /** A fragment comes from a line of the list that yields it, and every line
      that yields a text contributes it. */
  lemma {:induction false} LinesFragmentsMembers(fmt: Format, lines: seq<string>, ex: Extractor, t: string)
    ensures t in LinesFragments(fmt, lines, ex) <==> exists l :: l in lines && LineText(fmt, l, ex) == Some(t)
  {
    if lines != [] {
      LinesFragmentsMembers(fmt, lines[1..], ex, t);
      assert lines == [lines[0]] + lines[1..];
      if l :| l in lines && LineText(fmt, l, ex) == Some(t) {
        if l != lines[0] {
          assert l in lines[1..];
        }
      }
    }
  }

  /** In the event stream only lines starting with `data: ` contribute; the
      payload is the line without its first six characters; the `[DONE]`
      payload contributes nothing; any other payload contributes exactly its
      non-empty extracted content. */
  lemma {:induction false} EventStreamContributions(chunk: string, ex: Extractor, t: string)
    ensures t in ChunkFragments(EventStream, chunk, ex) <==>
      exists l :: l in Split(chunk, '\n') && StartsWith(l, DataPrefix) &&
        l[6..] != DoneSentinel && ex(l[6..]) == Some(t) && t != []
  {
    LinesFragmentsMembers(EventStream, KeptLines(EventStream, chunk), ex, t);
    forall l ensures l in KeptLines(EventStream, chunk) <==> l in Split(chunk, '\n') && IsKept(EventStream, l) {
      KeepLinesMembers(EventStream, Split(chunk, '\n'), l);
    }
  }

  /** In newline-delimited JSON empty lines are discarded and a line
      contributes exactly its non-empty `message.content`. */
  lemma {:induction false} NdJsonContributions(chunk: string, ex: Extractor, t: string)
    ensures t in ChunkFragments(NdJson, chunk, ex) <==>
      exists l :: l in Split(chunk, '\n') && l != [] && ex(l) == Some(t) && t != []
  {
    LinesFragmentsMembers(NdJson, KeptLines(NdJson, chunk), ex, t);
    forall l ensures l in KeptLines(NdJson, chunk) <==> l in Split(chunk, '\n') && IsKept(NdJson, l) {
      KeepLinesMembers(NdJson, Split(chunk, '\n'), l);
    }
  }

  /** The sentinel line yields nothing, whatever the extractor makes of it. */
  lemma {:induction false} DoneLineYieldsNothing(ex: Extractor)
    ensures ChunkFragments(EventStream, DataPrefix + DoneSentinel, ex) == []
  {
    var l := DataPrefix + DoneSentinel;
    SplitWithoutSeparator(l, '\n');
    assert Slice(l, 6) == DoneSentinel;
    assert LineText(EventStream, l, ex) == None;
    KeepOneLine(EventStream, l);
    OneLineFragments(EventStream, l, ex);
  }

  lemma {:induction false} KeepLinesCons(fmt: Format, l: string, rest: seq<string>)
    ensures KeepLines(fmt, [l] + rest) == (if IsKept(fmt, l) then [l] else []) + KeepLines(fmt, rest)
  {
    assert ([l] + rest)[1..] == rest;
  }

  lemma {:induction false} KeepOneLine(fmt: Format, l: string)
    ensures KeepLines(fmt, [l]) == if IsKept(fmt, l) then [l] else []
  {
    assert [l][1..] == [];
  }

  lemma {:induction false} OneLineFragments(fmt: Format, l: string, ex: Extractor)
    ensures LinesFragments(fmt, [l], ex) == AsList(LineText(fmt, l, ex))
  {
    assert [l][1..] == [];
  }

  /** Styling is decided fragment by fragment: the display of two runs of
      fragments is the display of the first followed by that of the second,
      so nothing is carried over (not even an open fence). */
  lemma {:induction false} DisplayAppend(a: seq<string>, b: seq<string>)
    ensures Display(a + b) == Display(a) + Display(b)
  {
    if a == [] {
      assert a + b == b;
    } else {
      assert (a + b)[1..] == a[1..] + b;
      DisplayAppend(a[1..], b);
    }
  }

  /** The k-th write is the k-th fragment, highlighted exactly when the
      three-backtick marker occurs in that fragment. */
  lemma {:induction false} DisplayAt(fragments: seq<string>, k: nat)
    requires k < |fragments|
    ensures |Display(fragments)| == |fragments|
    ensures Display(fragments)[k].text == fragments[k]
    ensures Display(fragments)[k].style == Highlighted <==>
      exists i :: 0 <= i <= |fragments[k]| - 3 && StartsWith(fragments[k][i..], FenceMarker)
  {
    if k == 0 {
      ContainsIffOccurs(fragments[0], FenceMarker);
      DisplayLength(fragments);
    } else {
      DisplayAt(fragments[1..], k - 1);
      DisplayLength(fragments);
    }
  }

  lemma {:induction false} DisplayLength(fragments: seq<string>)
    ensures |Display(fragments)| == |fragments|
  {
    if fragments != [] {
      DisplayLength(fragments[1..]);
    }
  }

  // ---------------------------------------------------------------------
  // Worked examples

  const HelloPayload: string := "{\"choices\":[{\"delta\":{\"content\":\"Hello\"}}]}"
  const WorldPayload: string := "{\"choices\":[{\"delta\":{\"content\":\" world\"}}]}"

  /** What `JSON.parse(data).choices[0].delta.content` gives on the two
      payloads of the example below. */
  function HelloWorldContent(payload: string): Option<string>
  {
    if payload == HelloPayload then Some("Hello")
    else if payload == WorldPayload then Some(" world")
    else None
  }

  /** Two event-stream chunks carrying "Hello" and " world", the second
      closed by the sentinel, give the reply "Hello world". */
  lemma {:induction false} HelloWorldExample()
    ensures Reply(EventStream, [DataPrefix + HelloPayload + "\n\n",
                                DataPrefix + WorldPayload + "\n\n" + DataPrefix + DoneSentinel + "\n\n"],
                  HelloWorldContent) == "Hello world"
  {
    var c1 := DataPrefix + HelloPayload + "\n\n";
    var c2 := DataPrefix + WorldPayload + "\n\n" + DataPrefix + DoneSentinel + "\n\n";
    assert StreamFragments(EventStream, [c1, c2], HelloWorldContent) == ["Hello", " world"] by {
      HelloChunk();
      WorldChunk();
      SingleChunk(EventStream, c1, HelloWorldContent);
      SingleChunk(EventStream, c2, HelloWorldContent);
      StreamFragmentsAppend(EventStream, [c1], [c2], HelloWorldContent);
      assert [c1] + [c2] == [c1, c2];
    }
    assert Concat(["Hello", " world"]) == "Hello" + Concat([" world"]);
    assert Concat([" world"]) == " world" + Concat([]);
  }

  lemma {:induction false} HelloChunk()
    ensures ChunkFragments(EventStream, DataPrefix + HelloPayload + "\n\n", HelloWorldContent) == ["Hello"]
  {
    var l1 := DataPrefix + HelloPayload;
    HelloChunkLines();
    KeepBeforeBlankTail(EventStream, l1);
    assert Slice(l1, 6) == HelloPayload;
    OneLineFragments(EventStream, l1, HelloWorldContent);
  }

  /** None of the example lines holds a line feed of its own. */
  lemma HelloLineIsSingle()
    ensures '\n' !in DataPrefix + HelloPayload
  {
  }

  lemma WorldLineIsSingle()
    ensures '\n' !in DataPrefix + WorldPayload
  {
  }

  lemma DoneLineIsSingle()
    ensures '\n' !in DataPrefix + DoneSentinel
  {
  }

  lemma FooBarLinesAreSingle()
    ensures '\n' !in FooLine && '\n' !in BarLine
  {
  }

  lemma {:induction false} HelloChunkLines()
    ensures Split(DataPrefix + HelloPayload + "\n\n", '\n') == [DataPrefix + HelloPayload, [], []]
  {
    var l1 := DataPrefix + HelloPayload;
    HelloLineIsSingle();
    SplitBlankTail();
    SplitAfterPiece(l1, '\n', "\n");
    assert l1 + "\n\n" == l1 + "\n" + "\n";
  }

  /** A kept line followed by two empty lines keeps only that line. */
  lemma {:induction false} KeepBeforeBlankTail(fmt: Format, l: string)
    requires IsKept(fmt, l)
    ensures KeepLines(fmt, [l, [], []]) == [l]
  {
    KeepOneLine(fmt, []);
    KeepLinesCons(fmt, [], [[]]);
    var blank: string := [];
    assert [blank, blank] == [blank] + [blank];
    KeepLinesCons(fmt, l, [[], []]);
    assert [l, [], []] == [l] + [[], []];
  }

  lemma {:induction false} WorldChunk()
    ensures ChunkFragments(EventStream, DataPrefix + WorldPayload + "\n\n" + DataPrefix + DoneSentinel + "\n\n",
                           HelloWorldContent) == [" world"]
  {
    var l2, l3 := DataPrefix + WorldPayload, DataPrefix + DoneSentinel;
    WorldChunkLines();
    WorldKeptLines();
    assert Slice(l2, 6) == WorldPayload;
    assert LinesFragments(EventStream, [l2, l3], HelloWorldContent) == [" world"] by {
      assert [l2, l3][1..] == [l3];
      DoneLineFragments(l3, HelloWorldContent);
    }
  }

  lemma {:induction false} WorldKeptLines()
    ensures KeepLines(EventStream, [DataPrefix + WorldPayload, [], DataPrefix + DoneSentinel, [], []])
      == [DataPrefix + WorldPayload, DataPrefix + DoneSentinel]
  {
    var l2, l3 := DataPrefix + WorldPayload, DataPrefix + DoneSentinel;
    KeepBeforeBlankTail(EventStream, l3);
    KeepLinesCons(EventStream, [], [l3, [], []]);
    assert [[], l3, [], []] == [[]] + [l3, [], []];
    KeepLinesCons(EventStream, l2, [[], l3, [], []]);
    assert [l2, [], l3, [], []] == [l2] + [[], l3, [], []];
  }

  /** The sentinel line alone yields no fragment. */
  lemma {:induction false} DoneLineFragments(l: string, ex: Extractor)
    requires l == DataPrefix + DoneSentinel
    ensures LinesFragments(EventStream, [l], ex) == []
  {
    assert Slice(l, 6) == DoneSentinel;
    assert LineText(EventStream, l, ex) == None;
    OneLineFragments(EventStream, l, ex);
  }

  lemma {:induction false} WorldChunkLines()
    ensures Split(DataPrefix + WorldPayload + "\n\n" + DataPrefix + DoneSentinel + "\n\n", '\n')
      == [DataPrefix + WorldPayload, [], DataPrefix + DoneSentinel, [], []]
  {
    var l2, l3 := DataPrefix + WorldPayload, DataPrefix + DoneSentinel;
    var tail := "\n" + l3 + "\n\n";
    assert Split(tail, '\n') == [[], l3, [], []] by {
      DoneTailLines();
    }
    assert Split(l2 + "\n" + tail, '\n') == [l2] + Split(tail, '\n') by {
      WorldLineIsSingle();
      SplitAfterPiece(l2, '\n', tail);
    }
    assert DataPrefix + WorldPayload + "\n\n" + DataPrefix + DoneSentinel + "\n\n" == l2 + "\n" + tail;
    assert [l2] + [[], l3, [], []] == [l2, [], l3, [], []];
  }

  lemma {:induction false} DoneTailLines()
    ensures Split("\n" + (DataPrefix + DoneSentinel) + "\n\n", '\n') == [[], DataPrefix + DoneSentinel, [], []]
  {
    var l3 := DataPrefix + DoneSentinel;
    DoneLineIsSingle();
    SplitBlankTail();
    SplitAfterPiece(l3, '\n', "\n");
    assert l3 + "\n\n" == l3 + "\n" + "\n";
    SplitAfterPiece([], '\n', l3 + "\n\n");
    assert "\n" + l3 + "\n\n" == [] + "\n" + (l3 + "\n\n");
    assert [[]] + [l3, [], []] == [[], l3, [], []];
  }

  /** A lone line feed splits into two empty lines. */
  lemma {:induction false} SplitBlankTail()
    ensures Split("\n", '\n') == [[], []]
  {
    SplitAfterPiece([], '\n', []);
    assert "\n" == [] + "\n" + [];
  }

  const FooLine: string := "{\"message\":{\"content\":\"foo\"}}"
  const BarLine: string := "{\"message\":{\"content\":\"bar\"}}"

  /** What `JSON.parse(line).message.content` gives on the two lines of the
      example below. */
  function FooBarContent(line: string): Option<string>
  {
    if line == FooLine then Some("foo") else if line == BarLine then Some("bar") else None
  }

  /** Two newline-delimited JSON lines carrying "foo" and "bar" give the
      reply "foobar". */
  lemma {:induction false} FooBarExample()
    ensures Reply(NdJson, [FooLine + "\n" + BarLine + "\n"], FooBarContent) == "foobar"
  {
    var c := FooLine + "\n" + BarLine + "\n";
    assert StreamFragments(NdJson, [c], FooBarContent) == ["foo", "bar"] by {
      FooBarChunk();
      SingleChunk(NdJson, c, FooBarContent);
    }
    assert Concat(["foo", "bar"]) == "foo" + Concat(["bar"]);
    assert Concat(["bar"]) == "bar" + Concat([]);
  }

  lemma {:induction false} FooBarChunk()
    ensures ChunkFragments(NdJson, FooLine + "\n" + BarLine + "\n", FooBarContent) == ["foo", "bar"]
  {
    FooBarLines();
    FooBarKept();
    assert LinesFragments(NdJson, [FooLine, BarLine], FooBarContent) == ["foo", "bar"] by {
      assert [FooLine, BarLine][1..] == [BarLine];
      OneLineFragments(NdJson, BarLine, FooBarContent);
    }
  }

  lemma {:induction false} FooBarLines()
    ensures Split(FooLine + "\n" + BarLine + "\n", '\n') == [FooLine, BarLine, []]
  {
    FooBarLinesAreSingle();
    SplitAfterPiece(BarLine, '\n', []);
    assert BarLine + "\n" == BarLine + "\n" + [];
    SplitAfterPiece(FooLine, '\n', BarLine + "\n");
    assert FooLine + "\n" + BarLine + "\n" == FooLine + "\n" + (BarLine + "\n");
  }

  lemma {:induction false} FooBarKept()
    ensures KeepLines(NdJson, [FooLine, BarLine, []]) == [FooLine, BarLine]
  {
    KeepOneLine(NdJson, []);
    KeepLinesCons(NdJson, BarLine, [[]]);
    assert [BarLine, []] == [BarLine] + [[]];
    KeepLinesCons(NdJson, FooLine, [BarLine, []]);
    assert [FooLine, BarLine, []] == [FooLine] + [BarLine, []];
  }

  /** What `JSON.parse(data).choices[0].delta.content` gives in the example
      below: "t" for the payload "p". */
  function CutExampleContent(payload: string): Option<string>
  {
    if payload == "p" then Some("t") else None
  }

  /** A line cut across two reads is lost: neither piece starts with
      `data: `, so the reply depends on where the network cut the body. */
  lemma {:induction false} LineCutAcrossChunksIsLost()
    ensures Reply(EventStream, ["data: p"], CutExampleContent) == "t"
    ensures Reply(EventStream, ["da", "ta: p"], CutExampleContent) == ""
  {
    WholeLineKept();
    CutLineDropped();
  }

  lemma {:induction false} WholeLineKept()
    ensures Reply(EventStream, ["data: p"], CutExampleContent) == "t"
  {
    assert Slice("data: p", 6) == "p";
    SingleLineChunk(EventStream, "data: p", CutExampleContent);
    SingleChunk(EventStream, "data: p", CutExampleContent);
    assert Concat(["t"]) == "t" + Concat([]);
  }

  lemma {:induction false} CutLineDropped()
    ensures Reply(EventStream, ["da", "ta: p"], CutExampleContent) == ""
  {
    SingleLineChunk(EventStream, "da", CutExampleContent);
    assert !StartsWith("ta: p", DataPrefix);
    SingleLineChunk(EventStream, "ta: p", CutExampleContent);
    SingleChunk(EventStream, "ta: p", CutExampleContent);
    assert ["da", "ta: p"][1..] == ["ta: p"];
  }
}
