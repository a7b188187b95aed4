/**
 * The delimiter-framing text protocol shared by the server (UnityDemo/TcpServer.cs) and the
 * client connector (UnityDemo/Tcp.cs).
 *
 * A peer writes text frames, each terminated by a single ';'.  The receiver appends every decoded
 * chunk to a per-connection buffer and then cuts the buffer at each ';': the text before a ';'
 * is a frame, delivered unless it is empty, and the text after the last ';' stays in the buffer
 * for the next read.  Text is modelled at the character level; UTF-8 decoding is not modelled.
 */
module Framing {

  /** The frame terminator. */
  const Delimiter: char := ';'

  /** The character-level view of one `ReadAsync` on a connection's stream. */
  datatype ReadOutcome =
    | Chunk(text: string)  // a read of one or more bytes, already decoded
    | EndOfStream          // a zero-length read: the peer closed the connection
    | ReadError            // the read threw (socket error, closed stream, cancellation)

  // ---------------------------------------------------------------------------------------------
  // Library behaviour the framer relies on
  // ---------------------------------------------------------------------------------------------

  /** `String.IndexOf(char)`: the first position of `c` in `s`, or -1 when `c` does not occur. */
  function IndexOf(s: string, c: char): (i: int)
    ensures -1 <= i < |s|
    ensures 0 <= i ==> s[i] == c
  {
    if |s| == 0 then -1
    else if s[0] == c then 0
    else
      var j := IndexOf(s[1..], c);
      if j < 0 then -1 else j + 1
  }

  /** IndexOf finds the first occurrence: -1 exactly when `c` is absent, and no `c` before the index. */
  lemma {:induction false} IndexOfFirst(s: string, c: char)
    ensures IndexOf(s, c) == -1 <==> c !in s
    ensures forall k :: 0 <= k < IndexOf(s, c) ==> s[k] != c
    decreases |s|
  {
    if |s| > 0 && s[0] != c {
      IndexOfFirst(s[1..], c);
      assert s == [s[0]] + s[1..];
    }
  }

  /** `Char.IsWhiteSpace`: the Unicode space, line and paragraph separators and U+0009..U+000D, U+0085. */
  predicate IsWhiteSpace(ch: char)
  {
    var n := ch as int;
    (0x09 <= n <= 0x0D) || n == 0x20 || n == 0x85 || n == 0xA0 || n == 0x1680
    || (0x2000 <= n <= 0x200A) || n == 0x2028 || n == 0x2029 || n == 0x202F || n == 0x205F
    || n == 0x3000
  }

  /** `String.IsNullOrWhiteSpace` on a non-null string: the guard of both senders. */
  predicate IsBlank(s: string)
  {
    forall k :: 0 <= k < |s| ==> IsWhiteSpace(s[k])
  }

  /**
   * The send guard on sample inputs: the empty text and text made only of ASCII, no-break or
   * ideographic spaces and line breaks is blank; the delimiter, a letter and the zero-width space
   * (which .NET does not count as white space) are not.
   */
  lemma WhiteSpaceCases()
    ensures IsBlank([]) && IsBlank(" \t\r\n") && IsBlank("\U{00A0}\U{3000}\U{2028}\U{000B}")
    ensures !IsWhiteSpace(Delimiter) && !IsWhiteSpace('a') && !IsWhiteSpace('\U{200B}')
    ensures !IsBlank(" 5 ") && !IsBlank(";")
  {
    assert " 5 "[1] == '5';
    assert ";"[0] == Delimiter;
  }

  // ---------------------------------------------------------------------------------------------
  // Specification of the framer
  // ---------------------------------------------------------------------------------------------

  /** The result of cutting a buffer at every delimiter. */
  datatype Cut = Cut(segments: seq<string>, remainder: string)

  /** Every string of `ss` is free of the delimiter. */
  predicate DelimiterFree(ss: seq<string>)
  {
    forall k :: 0 <= k < |ss| ==> Delimiter !in ss[k]
  }

  /**
   * Cuts `s` at every delimiter, left to right: the segments are the texts before each ';'
   * (empty ones included) and the remainder is the unterminated tail.
   */
  function Split(s: string): Cut
    decreases |s|
  {
    var i := IndexOf(s, Delimiter);
    if i < 0 then Cut([], s)
    else
      var rest := Split(s[i + 1..]);
      Cut([s[..i]] + rest.segments, rest.remainder)
  }

  /** The inverse of Split: each segment followed by the delimiter, then the remainder. */
  function Join(segments: seq<string>, remainder: string): string
  {
    if segments == [] then remainder
    else segments[0] + [Delimiter] + Join(segments[1..], remainder)
  }

  /** The segments that are delivered: the non-empty ones, in order. */
  function NonEmpty(segments: seq<string>): seq<string>
  {
    if segments == [] then []
    else (if segments[0] == [] then [] else [segments[0]]) + NonEmpty(segments[1..])
  }

  /** The frames a buffer delivers (the `DataReceived` payloads). */
  function Frames(s: string): seq<string>
  {
    NonEmpty(Split(s).segments)
  }

  /** What the buffer holds after framing: the text after the last delimiter. */
  function Remainder(s: string): string
  {
    Split(s).remainder
  }

  // ---------------------------------------------------------------------------------------------
  // The framer as the source runs it
  // ---------------------------------------------------------------------------------------------

  /**
   * `ProcessCompleteMessages`: repeatedly takes the prefix before the first ';', delivers it when
   * it is non-empty, drops it together with the ';', and finally leaves what is left as the new
   * builder contents.  Returns the delivered messages in order and the new builder contents.
   */
  method ProcessCompleteMessages(builder: string) returns (messages: seq<string>, remainder: string)
    ensures messages == Frames(builder) && remainder == Remainder(builder)
    ensures forall k :: 0 <= k < |messages| ==> messages[k] != [] && Delimiter !in messages[k]
    ensures Delimiter !in remainder
  {
    var allData := builder;
    messages := [];
    EmptyAppend(Frames(builder));
    var semicolonIndex := IndexOf(allData, Delimiter);
    while semicolonIndex >= 0
      invariant semicolonIndex == IndexOf(allData, Delimiter)
      invariant Frames(builder) == messages + Frames(allData)
      invariant Remainder(builder) == Remainder(allData)
      decreases |allData|
    {
      var completeMessage := allData[..semicolonIndex];
      var next := allData[semicolonIndex + 1..];
      var delivered := if completeMessage == [] then messages else messages + [completeMessage];
      assert Frames(builder) == delivered + Frames(next) && Remainder(builder) == Remainder(next) by {
        FramerStep(messages, allData, semicolonIndex);
      }
      messages := delivered;
      allData := next;
      semicolonIndex := IndexOf(allData, Delimiter);
    }
    remainder := allData;
    assert messages == Frames(builder) && remainder == Remainder(builder) by {
      IndexOfFirst(allData, Delimiter);
      NoDelimiterNoFrame(allData);
      AppendEmpty(messages);
    }
    FramesAreWellFormed(builder);
    SplitDelimiterFree(builder);
  }

  /** One turn of the framer's loop, stated on what has been delivered so far. */
  lemma FramerStep(messages: seq<string>, s: string, i: nat)
    requires i == IndexOf(s, Delimiter)
    ensures messages + Frames(s) == (if s[..i] == [] then messages else messages + [s[..i]]) + Frames(s[i + 1..])
    ensures Remainder(s) == Remainder(s[i + 1..])
  {
    FramesAtDelimiter(s, i);
    if s[..i] != [] {
      AppendAssoc(messages, [s[..i]], Frames(s[i + 1..]));
    }
  }

  // ---------------------------------------------------------------------------------------------
  // Properties of the specification
  // ---------------------------------------------------------------------------------------------

  /** One turn of the framer's loop: the first frame, if non-empty, then the frames after it. */
  lemma FramesAtDelimiter(s: string, i: nat)
    requires i == IndexOf(s, Delimiter)
    ensures Frames(s) == (if s[..i] == [] then [] else [s[..i]]) + Frames(s[i + 1..])
    ensures Remainder(s) == Remainder(s[i + 1..])
  {
    var segs := [s[..i]] + Split(s[i + 1..]).segments;
    assert segs[1..] == Split(s[i + 1..]).segments;
  }

  /** The cut never leaves a delimiter inside a segment or in the remainder. */
  lemma {:induction false} SplitDelimiterFree(s: string)
    ensures DelimiterFree(Split(s).segments) && Delimiter !in Split(s).remainder
    decreases |s|
  {
    var i := IndexOf(s, Delimiter);
    IndexOfFirst(s, Delimiter);
    if i >= 0 {
      SplitDelimiterFree(s[i + 1..]);
      assert Delimiter !in s[..i] by {
        forall k | 0 <= k < i ensures s[..i][k] != Delimiter {
        }
      }
      DelimiterFreeCons(s[..i], Split(s[i + 1..]).segments);
    }
  }

  lemma DelimiterFreeCons(head: string, segments: seq<string>)
    requires Delimiter !in head && DelimiterFree(segments)
    ensures DelimiterFree([head] + segments)
  {
  }

  /** NonEmpty is a filter: it keeps exactly the non-empty segments and never lengthens the list. */
  lemma {:induction false} NonEmptyFilters(segments: seq<string>)
    ensures |NonEmpty(segments)| <= |segments|
    ensures forall m :: m in NonEmpty(segments) ==> m != [] && m in segments
    ensures forall m :: m in segments && m != [] ==> m in NonEmpty(segments)
  {
    if segments != [] {
      NonEmptyFilters(segments[1..]);
      assert segments == [segments[0]] + segments[1..];
    }
  }

  /** Every delivered frame is non-empty and free of the delimiter. */
  lemma FramesAreWellFormed(s: string)
    ensures forall k :: 0 <= k < |Frames(s)| ==> Frames(s)[k] != [] && Delimiter !in Frames(s)[k]
  {
    var segs := Split(s).segments;
    SplitDelimiterFree(s);
    NonEmptyFilters(segs);
    forall k | 0 <= k < |Frames(s)|
      ensures Frames(s)[k] != [] && Delimiter !in Frames(s)[k]
    {
      assert Frames(s)[k] in NonEmpty(segs);
      var j :| 0 <= j < |segs| && segs[j] == Frames(s)[k];
    }
  }

  /** No character is lost or reordered: the segments, each with its ';', and the remainder give back the buffer. */
  lemma {:induction false} SplitLossless(s: string)
    ensures Join(Split(s).segments, Split(s).remainder) == s
    decreases |s|
  {
    var i := IndexOf(s, Delimiter);
    if i >= 0 {
      SplitLossless(s[i + 1..]);
      SplitLosslessStep(s, i);
    }
  }

  /** One cut of SplitLossless: the first segment and its ';' in front of the rest give back `s`. */
  lemma SplitLosslessStep(s: string, i: nat)
    requires i < |s| && s[i] == Delimiter
    requires Join(Split(s[i + 1..]).segments, Split(s[i + 1..]).remainder) == s[i + 1..]
    ensures Join([s[..i]] + Split(s[i + 1..]).segments, Split(s[i + 1..]).remainder) == s
  {
    var rest := Split(s[i + 1..]);
    JoinCons(s[..i], rest.segments, rest.remainder);
    Reassemble(s, i);
  }

  lemma JoinCons(head: string, segments: seq<string>, remainder: string)
    ensures Join([head] + segments, remainder) == head + [Delimiter] + Join(segments, remainder)
  {
    assert ([head] + segments)[1..] == segments;
  }

  /** A delimiter-free segment and its ';' at the front of a buffer are cut off first. */
  lemma SplitCons(head: string, rest: string)
    requires Delimiter !in head
    ensures Split(head + [Delimiter] + rest) == Cut([head] + Split(rest).segments, Split(rest).remainder)
  {
    var s := head + [Delimiter] + rest;
    assert s[..|head|] == head;
    assert s[|head| + 1..] == rest;
    assert IndexOf(s, Delimiter) == |head| by {
      IndexOfFirst(s, Delimiter);
      assert s[|head|] == Delimiter;
      forall k | 0 <= k < |head| ensures s[k] != Delimiter {
        assert s[k] == head[k];
      }
    }
  }

  /** Delimiter-free segments, each with its ';', put in front of `rest` are cut off first, in order. */
  lemma {:induction false} SplitJoin(segments: seq<string>, rest: string)
    requires DelimiterFree(segments)
    ensures Split(Join(segments, rest)) == Cut(segments + Split(rest).segments, Split(rest).remainder)
    decreases |segments|
  {
    if segments == [] {
      assert segments + Split(rest).segments == Split(rest).segments;
    } else {
      SplitJoin(segments[1..], rest);
      SplitJoinStep(segments, rest);
    }
  }

  /** The inductive step of SplitJoin: the first segment is cut off, then the others. */
  lemma SplitJoinStep(segments: seq<string>, rest: string)
    requires segments != [] && Delimiter !in segments[0]
    requires Split(Join(segments[1..], rest)) == Cut(segments[1..] + Split(rest).segments, Split(rest).remainder)
    ensures Split(Join(segments, rest)) == Cut(segments + Split(rest).segments, Split(rest).remainder)
  {
    var head, tail := segments[0], Join(segments[1..], rest);
    assert Join(segments, rest) == head + [Delimiter] + tail;
    SplitCons(head, tail);
    ConsAppend(segments, Split(rest).segments);
  }

  /** Split is the only way to read a buffer as delimiter-free segments plus a delimiter-free tail. */
  lemma SplitUnique(segments: seq<string>, remainder: string)
    requires DelimiterFree(segments) && Delimiter !in remainder
    ensures Split(Join(segments, remainder)) == Cut(segments, remainder)
  {
    SplitJoin(segments, remainder);
    assert segments + [] == segments;
  }

  lemma {:induction false} JoinAppend(segments: seq<string>, rest: string, y: string)
    ensures Join(segments, rest) + y == Join(segments, rest + y)
    decreases |segments|
  {
    if segments != [] {
      JoinAppend(segments[1..], rest, y);
    }
  }

  lemma {:induction false} NonEmptyAppend(a: seq<string>, b: seq<string>)
    ensures NonEmpty(a + b) == NonEmpty(a) + NonEmpty(b)
  {
    if a != [] {
      assert (a + b)[1..] == a[1..] + b;
      NonEmptyAppend(a[1..], b);
    } else {
      assert a + b == b;
    }
  }

  /** A buffer extended by `y` splits as the buffer, then its remainder extended by `y`. */
  lemma SplitAppend(x: string, y: string)
    ensures Split(x + y).segments == Split(x).segments + Split(Remainder(x) + y).segments
    ensures Remainder(x + y) == Remainder(Remainder(x) + y)
  {
    var cut := Split(x);
    SplitLossless(x);
    JoinAppend(cut.segments, cut.remainder, y);
    SplitDelimiterFree(x);
    SplitJoin(cut.segments, cut.remainder + y);
  }

  /** Framing `x + y` delivers the frames of `x`, then those of what `x` left behind followed by `y`. */
  lemma FramesAppend(x: string, y: string)
    ensures Frames(x + y) == Frames(x) + Frames(Remainder(x) + y)
    ensures Remainder(x + y) == Remainder(Remainder(x) + y)
  {
    SplitAppend(x, y);
    NonEmptyAppend(Split(x).segments, Split(Remainder(x) + y).segments);
  }

  // ---------------------------------------------------------------------------------------------
  // Reads arriving in chunks
  // ---------------------------------------------------------------------------------------------

  /** All chunks, in order. */
  function Concat(chunks: seq<string>): string
  {
    if chunks == [] then [] else chunks[0] + Concat(chunks[1..])
  }

  lemma {:induction false} ConcatAppend(a: seq<string>, b: seq<string>)
    ensures Concat(a + b) == Concat(a) + Concat(b)
  {
    if a == [] {
      assert a + b == b;
    } else {
      assert (a + b)[1..] == a[1..] + b;
      ConcatAppend(a[1..], b);
    }
  }

  /** The frames delivered so far and the buffer left behind. */
  datatype Fed = Fed(delivered: seq<string>, buffer: string)

  /** The receive loop: append each chunk to the buffer and run the framer after each one. */
  function Feed(buffer: string, chunks: seq<string>): Fed
    decreases |chunks|
  {
    if chunks == [] then Fed([], buffer)
    else
      var step := buffer + chunks[0];
      var rest := Feed(Remainder(step), chunks[1..]);
      Fed(Frames(step) + rest.delivered, rest.buffer)
  }

  /**
   * How the decoded text arrives in chunks does not change what is delivered, nor what is left.
   * (Each read is decoded on its own, so this is about the text after decoding; see README.)
   */
  lemma {:induction false} ChunkingIndependent(buffer: string, chunks: seq<string>)
    requires Delimiter !in buffer
    ensures Feed(buffer, chunks) == Fed(Frames(buffer + Concat(chunks)), Remainder(buffer + Concat(chunks)))
    decreases |chunks|
  {
    if chunks == [] {
      assert buffer + Concat(chunks) == buffer;
      NoDelimiterNoFrame(buffer);
    } else {
      SplitDelimiterFree(buffer + chunks[0]);
      ChunkingIndependent(Remainder(buffer + chunks[0]), chunks[1..]);
      ChunkingStep(buffer, chunks);
    }
  }

  /** The inductive step of ChunkingIndependent: the first chunk, then the rest from what it left. */
  lemma ChunkingStep(buffer: string, chunks: seq<string>)
    requires chunks != []
    requires var left := Remainder(buffer + chunks[0]);
      Feed(left, chunks[1..]) == Fed(Frames(left + Concat(chunks[1..])), Remainder(left + Concat(chunks[1..])))
    ensures Feed(buffer, chunks) == Fed(Frames(buffer + Concat(chunks)), Remainder(buffer + Concat(chunks)))
  {
    var step, later := buffer + chunks[0], Concat(chunks[1..]);
    AppendAssoc(buffer, chunks[0], later);
    FramesAppend(step, later);
  }

  /** After every turn of the receive loop, delivered frames are non-empty and ';'-free, and so is the buffer. */
  lemma {:induction false} FeedWellFormed(buffer: string, chunks: seq<string>)
    ensures WellFormedFrames(Feed(buffer, chunks).delivered)
    ensures chunks != [] ==> Delimiter !in Feed(buffer, chunks).buffer
    decreases |chunks|
  {
    if chunks != [] {
      var step := buffer + chunks[0];
      FramesAreWellFormed(step);
      SplitDelimiterFree(step);
      FeedWellFormed(Remainder(step), chunks[1..]);
      WellFormedAppend(Frames(step), Feed(Remainder(step), chunks[1..]).delivered);
    }
  }

  /** Delivered frames are non-empty and free of the delimiter. */
  predicate WellFormedFrames(frames: seq<string>)
  {
    forall k :: 0 <= k < |frames| ==> frames[k] != [] && Delimiter !in frames[k]
  }

  lemma WellFormedAppend(a: seq<string>, b: seq<string>)
    requires WellFormedFrames(a) && WellFormedFrames(b)
    ensures WellFormedFrames(a + b)
  {
    forall k | 0 <= k < |a + b| ensures (a + b)[k] != [] && Delimiter !in (a + b)[k] {
      if k < |a| {
        assert (a + b)[k] == a[k];
      } else {
        assert (a + b)[k] == b[k - |a|];
      }
    }
  }

  // ---------------------------------------------------------------------------------------------
  // Sending: the server's sender appends the delimiter
  // ---------------------------------------------------------------------------------------------

  /** The text the server writes for `message` (`message + ";"`). */
  function Encode(message: string): (wire: string)
    ensures |wire| == |message| + 1 && wire[|message|] == Delimiter && wire[..|message|] == message
  {
    message + [Delimiter]
  }

  /** A message that passes the send guard is non-empty. */
  lemma NotBlankIsNonEmpty(message: string)
    requires !IsBlank(message)
    ensures message != []
  {
  }

  /** Encoding a message that passes the guard and holds no ';', then framing it, gives back exactly the message. */
  lemma RoundTrip(message: string)
    requires !IsBlank(message) && Delimiter !in message
    ensures Split(Encode(message)) == Cut([message], [])
    ensures Frames(Encode(message)) == [message] && Remainder(Encode(message)) == []
  {
    NotBlankIsNonEmpty(message);
    SplitUnique([message], []);
    assert Join([message], []) == Encode(message);
    NonEmptyKeepsNonEmpty([message]);
  }

  /** The wire form of several messages sent one after the other. */
  function EncodeAll(messages: seq<string>): (wire: string)
    ensures wire == Join(messages, [])
  {
    if messages == [] then [] else Encode(messages[0]) + EncodeAll(messages[1..])
  }

  /**
   * Messages that are non-empty and hold no ';', written back to back and read in any chunking,
   * are delivered exactly and in order, leaving the buffer empty.
   */
  lemma StreamRoundTrip(messages: seq<string>, chunks: seq<string>)
    requires forall k :: 0 <= k < |messages| ==> messages[k] != [] && Delimiter !in messages[k]
    requires Concat(chunks) == EncodeAll(messages)
    ensures Feed([], chunks) == Fed(messages, [])
  {
    ChunkingIndependent([], chunks);
    assert [] + Concat(chunks) == Join(messages, []);
    SplitUnique(messages, []);
    NonEmptyKeepsNonEmpty(messages);
  }

  lemma {:induction false} NonEmptyKeepsNonEmpty(segments: seq<string>)
    requires forall k :: 0 <= k < |segments| ==> segments[k] != []
    ensures NonEmpty(segments) == segments
  {
    if segments != [] {
      NonEmptyKeepsNonEmpty(segments[1..]);
      assert [segments[0]] + segments[1..] == segments;
    }
  }

  /** A delimiter at the front of the buffer (two delimiters back to back) delivers nothing. */
  lemma EmptyFrameDiscarded(s: string)
    ensures Frames([Delimiter] + s) == Frames(s)
    ensures Remainder([Delimiter] + s) == Remainder(s)
  {
    var t := [Delimiter] + s;
    assert IndexOf(t, Delimiter) == 0;
    assert t[1..] == s;
    FramesAtDelimiter(t, 0);
  }

  /** Text without a delimiter delivers nothing and stays in the buffer whole. */
  lemma NoDelimiterNoFrame(s: string)
    requires Delimiter !in s
    ensures Frames(s) == [] && Remainder(s) == s
  {
    IndexOfFirst(s, Delimiter);
  }

  /** A peer writes "hello;wor" and then "ld;": exactly "hello" and "world" arrive, in that order. */
  lemma TwoWritesScenario()
    ensures Feed([], ["hello;wor", "ld;"]) == Fed(["hello", "world"], [])
  {
    var chunks := ["hello;wor", "ld;"];
    assert Concat(chunks[1..][1..]) == [];
    assert Concat(chunks) == "hello;world;";
    assert EncodeAll(["hello", "world"]) == "hello;world;" by {
      assert ["hello", "world"][1..] == ["world"];
      assert ["world"][1..] == [];
    }
    StreamRoundTrip(["hello", "world"], chunks);
  }

  /**
   * The client's sender adds no delimiter: "abc" and then "def;" written as they are arrive as
   * the single frame "abcdef".
   */
  lemma UndelimitedSendsMerge()
    ensures Feed([], ["abc", "def;"]) == Fed(["abcdef"], [])
  {
    var chunks := ["abc", "def;"];
    assert Concat(chunks[1..][1..]) == [];
    assert Concat(chunks) == "abcdef;";
    assert EncodeAll(["abcdef"]) == "abcdef;" by {
      assert ["abcdef"][1..] == [];
    }
    StreamRoundTrip(["abcdef"], chunks);
  }

  /** Broadcasting the text "5;" puts "5;;" on the wire, which delivers the single frame "5". */
  lemma DelimiterInsideMessage()
    ensures Frames(Encode("5;")) == ["5"] && Remainder(Encode("5;")) == []
  {
    var wire := Encode("5;");
    assert wire == "5" + [Delimiter] + ([Delimiter] + []);
    assert IndexOf(wire, Delimiter) == 1;
    FramesAtDelimiter(wire, 1);
    assert wire[2..] == [Delimiter] + [];
    EmptyFrameDiscarded([]);
    assert wire[..1] == "5";
  }

  // ---------------------------------------------------------------------------------------------
  // Sequence facts stated explicitly.  They add nothing to the model: calling them hands the
  // solver one equation it would otherwise search for, which keeps the proofs above within the
  // resource limit.
  // ---------------------------------------------------------------------------------------------

  lemma AppendEmpty<T>(s: seq<T>)
    ensures s + [] == s
  {
  }

  lemma EmptyAppend<T>(s: seq<T>)
    ensures [] + s == s
  {
  }

  lemma Reassemble<T>(s: seq<T>, i: nat)
    requires i < |s|
    ensures s[..i] + [s[i]] + s[i + 1..] == s
  {
  }

  lemma ConsAppend<T>(s: seq<T>, r: seq<T>)
    requires s != []
    ensures [s[0]] + (s[1..] + r) == s + r
  {
    assert s == [s[0]] + s[1..];
  }

  lemma AppendAssoc<T>(a: seq<T>, b: seq<T>, c: seq<T>)
    ensures a + (b + c) == (a + b) + c
  {
  }
}
