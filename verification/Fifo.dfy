/**
 bitbake/lib/bb/build.py, `readfifo` in `exec_func_shell`: a shell task writes NUL-terminated messages
 into a FIFO, and they arrive in chunks that are cut anywhere.
 */
module Fifo {

  import opened Options
  import opened Utf8

  const NUL: byte := 0
  const SPACE: byte := 0x20

  // ---- one message ----

  /** The logging call that a message turns into. */
  datatype Call =
    | Plain(text: string)
    | Note(text: string)
    | VerbNote(text: string)
    | Warn(text: string)
    | Error(text: string, forcelog: bool)
    | Debug(level: string, text: string)
    | Unrecognised(cmd: string)

  predicate Has<T(==)>(s: seq<T>, c: T) { exists i :: 0 <= i < |s| && s[i] == c }

  /** Where `c` first is in `s`, or the length of `s`. */
  function Find<T(==)>(s: seq<T>, c: T): (i: nat)
    ensures i <= |s| && (i < |s| ==> s[i] == c) && forall k :: 0 <= k < i ==> s[k] != c
  {
    if s == [] || s[0] == c then 0 else Find(s[1..], c) + 1
  }

  /** The parts before and after the first `c`; without one the second is empty. */
  function SplitOnce<T(==)>(s: seq<T>, c: T): (seq<T>, seq<T>) {
    var i := Find(s, c);
    if i < |s| then (s[..i], s[i + 1..]) else (s, [])
  }

  /** Command and value of a message, each decoded by itself; None where one of them is not UTF-8. */
  function Decoded(message: Bytes): Option<(string, string)> {
    var (cmd, value) := SplitOnce(message, SPACE);
    if Decode(cmd).Some? && Decode(value).Some? then Some((Decode(cmd).value, Decode(value).value)) else None
  }

  /** A debug message needs a level that `int` accepts and a text, or its value cannot be taken apart. */
  predicate Fails(isInt: string -> bool, cmd: string, value: string) {
    cmd == "bbdebug" && (!Has(value, ' ') || !isInt(SplitOnce(value, ' ').0))
  }

  /** The dispatch of the message raises. */
  predicate Raises(isInt: string -> bool, message: Bytes) {
    Decoded(message).None? || Fails(isInt, Decoded(message).value.0, Decoded(message).value.1)
  }

  function CallOf(cmd: string, value: string): Call {
    if cmd == "bbplain" then Plain(value)
    else if cmd == "bbnote" then Note(value)
    else if cmd == "bbverbnote" then VerbNote(value)
    else if cmd == "bbwarn" then Warn(value)
    else if cmd == "bberror" || cmd == "bbfatal" then Error(value, false)
    else if cmd == "bbfatal_log" then Error(value, true)
    else if cmd == "bbdebug" then Debug(SplitOnce(value, ' ').0, SplitOnce(value, ' ').1)
    else Unrecognised(cmd)
  }

  /** Any other command is reported as unrecognised. */
  lemma CommandKnown(cmd: string, value: string)
    ensures CallOf(cmd, value) == Unrecognised(cmd) <==>
      cmd !in ["bbplain", "bbnote", "bbverbnote", "bbwarn", "bberror", "bbfatal", "bbfatal_log", "bbdebug"]
    ensures CallOf("bbverbnote", value) == VerbNote(value)
  {
  }

  function Answer(message: Bytes): Call
    requires Decoded(message).Some?
  {
    CallOf(Decoded(message).value.0, Decoded(message).value.1)
  }

  lemma CanBeAnswered(isInt: string -> bool, message: Bytes)
    requires !Raises(isInt, message)
    ensures Decoded(message).Some?
  {
  }

  lemma SplitJoined<T>(cmd: seq<T>, c: T, value: seq<T>)
    requires !Has(cmd, c)
    ensures SplitOnce(cmd + [c] + value, c) == (cmd, value) && SplitOnce(cmd, c) == (cmd, [])
  {
    FindFirst(cmd, value, c);
    var s := cmd + [c] + value;
    assert s[..|cmd|] == cmd && s[|cmd| + 1..] == value;
  }

  lemma {:induction false} FindFirst<T>(a: seq<T>, b: seq<T>, c: T)
    requires !Has(a, c)
    ensures Find(a + [c] + b, c) == |a| && Find(a, c) == |a|
  {
    if a != [] {
      var s := a + [c] + b;
      assert s[1..] == a[1..] + [c] + b && s[0] == a[0] != c;
      FindFirst(a[1..], b, c);
    }
  }

  lemma FindMisses<T>(s: seq<T>, c: T)
    ensures !Has(s, c) <==> Find(s, c) == |s|
  {
  }

  lemma SplitParts<T>(s: seq<T>, c: T)
    ensures var (a, b) := SplitOnce(s, c);
      && !Has(a, c) && if Has(s, c) then s == a + [c] + b else s == a && b == []
  {
    FindMisses(s, c);
  }

  // ---- a message as a text ----

  /** The same of a text that is split after it has been decoded. */
  predicate TextFails(isInt: string -> bool, text: string) {
    Fails(isInt, SplitOnce(text, ' ').0, SplitOnce(text, ' ').1)
  }

  /** It makes no difference that the bytes are split first and decoded afterwards. */
  lemma DecodedIff(message: Bytes)
    ensures Decoded(message) ==
      if Decode(message).Some? then Some(SplitOnce(Decode(message).value, ' ')) else None
  {
    hide Decode, Find, SplitOnce, Has;
    var (a, b) := SplitOnce(message, SPACE);
    SplitParts(message, SPACE);
    assert SPACE !in a by { NotAmong(a, SPACE); }
    assert ' ' == SPACE as char;
    if Decode(a).Some? {
      AbsentFromText(a, SPACE);
      Among(Decode(a).value, ' ');
    }
    if Has(message, SPACE) {
      DecodeSplit(a, SPACE, b);
      if Decode(a).Some? && Decode(b).Some? {
        var t, u := Decode(a).value, Decode(b).value;
        SplitJoined(t, ' ', u);
        assert t + ([' '] + u) == t + [' '] + u;
      }
    } else {
      DecodeNothing();
      if Decode(a).Some? { SplitJoined(Decode(a).value, ' ', ""); }
    }
  }

  lemma NotAmong<T>(s: seq<T>, c: T)
    requires !Has(s, c)
    ensures c !in s
  {
  }

  lemma Among<T>(s: seq<T>, c: T)
    requires c !in s
    ensures !Has(s, c)
  {
  }

  /** A message raises exactly if its bytes are not UTF-8, or its text is a debug message without level and text. */
  lemma RaisesIff(isInt: string -> bool, message: Bytes)
    ensures Raises(isInt, message) <==> Decode(message).None? || TextFails(isInt, Decode(message).value)
    ensures !Raises(isInt, message) ==>
      Answer(message) == CallOf(SplitOnce(Decode(message).value, ' ').0, SplitOnce(Decode(message).value, ' ').1)
  {
    hide Decode, Fails, Decoded, SplitOnce, CallOf;
    DecodedIff(message);
  }

  /** A debug message with a level and a text fails exactly if the level is no number, one without a text always. */
  lemma DebugRaises(isInt: string -> bool, level: string, text: string)
    requires !Has(level, ' ')
    ensures TextFails(isInt, "bbdebug" + " " + (level + " " + text)) <==> !isInt(level)
    ensures TextFails(isInt, "bbdebug" + " " + level) && TextFails(isInt, "bbdebug")
  {
    assert !Has("bbdebug", ' ');
    hide Find, SplitOnce;
    SplitJoined("bbdebug", ' ', level + " " + text);
    SplitJoined("bbdebug", ' ', level);
    SplitJoined(level, ' ', text);
    assert (level + " " + text)[|level|] == ' ';
  }

  /** No other message with a text does. */
  lemma OthersDispatched(isInt: string -> bool, cmd: string, value: string)
    requires !Has(cmd, ' ') && cmd != "bbdebug"
    ensures !TextFails(isInt, cmd + " " + value) && !TextFails(isInt, cmd)
  {
    SplitJoined(cmd, ' ', value);
  }

  // ---- the stream ----

  /** What the writer of these messages puts into the FIFO. */
  function Frame(messages: seq<Bytes>): Bytes {
    if messages == [] then [] else messages[0] + [NUL] + Frame(messages[1..])
  }

  ghost predicate Clean(messages: seq<Bytes>) {
    forall m :: m in messages ==> !Has(m, NUL)
  }

  lemma {:induction false} FrameJoin(a: seq<Bytes>, b: seq<Bytes>)
    ensures Frame(a + b) == Frame(a) + Frame(b)
  {
    if a == [] {
      assert a + b == b;
    } else {
      FrameJoin(a[1..], b);
      assert (a + b)[1..] == a[1..] + b && (a + b)[0] == a[0];
      FrameStep(a);
      FrameStep(a + b);
      hide Frame;
      Regrouped(a[0] + [NUL], Frame(a[1..]), Frame(b));
    }
  }

  lemma Regrouped(a: Bytes, b: Bytes, c: Bytes)
    ensures (a + b) + c == a + (b + c)
  {
  }

  lemma FrameStep(a: seq<Bytes>)
    requires a != []
    ensures Frame(a) == a[0] + [NUL] + Frame(a[1..])
  {
  }

  /** A stream has one reading: its messages, and what follows the last NUL. */
  lemma {:induction false} ReadingIsUnique(m: seq<Bytes>, n: seq<Bytes>, a: Bytes, b: Bytes)
    requires Clean(m) && Clean(n) && !Has(a, NUL) && !Has(b, NUL) && Frame(m) + a == Frame(n) + b
    ensures m == n && a == b
  {
    if m != [] && n != [] {
      FirstSegment(m[0], Frame(m[1..]) + a, n[0], Frame(n[1..]) + b, Frame(m) + a);
      ReadingIsUnique(m[1..], n[1..], a, b);
      assert m == [m[0]] + m[1..] && n == [n[0]] + n[1..];
    } else {
      if m != [] { HasTerminator(m, a); }
      if n != [] { HasTerminator(n, b); }
      assert Frame([]) + a == a && Frame([]) + b == b;
    }
  }

  lemma FirstSegment(x: Bytes, rest: Bytes, y: Bytes, rest': Bytes, s: Bytes)
    requires !Has(x, NUL) && !Has(y, NUL) && s == x + [NUL] + rest && s == y + [NUL] + rest'
    ensures x == y && rest == rest'
  {
    FindFirst(x, rest, NUL);
    FindFirst(y, rest', NUL);
    assert x == s[..|x|] && rest == s[|x| + 1..] && rest' == s[|y| + 1..];
  }

  lemma HasTerminator(m: seq<Bytes>, a: Bytes)
    requires m != []
    ensures Has(Frame(m) + a, NUL)
  {
    assert (Frame(m) + a)[|m[0]|] == NUL;
  }

  /** The NUL-terminated messages of a stream, and what follows the last NUL. */
  function Segments(stream: Bytes): seq<Bytes>
    decreases |stream|
  {
    if Terminated(stream) then [Head(stream)] + Segments(After(stream)) else []
  }

  function Rest(stream: Bytes): Bytes
    decreases |stream|
  {
    if Terminated(stream) then Rest(After(stream)) else stream
  }

  predicate Terminated(s: Bytes) { Find(s, NUL) < |s| }

  function Head(s: Bytes): Bytes {
    s[..Find(s, NUL)]
  }

  function After(s: Bytes): (after: Bytes)
    requires Terminated(s)
    ensures |after| < |s|
  {
    s[Find(s, NUL) + 1..]
  }

  lemma NextSegment(s: Bytes)
    requires Terminated(s)
    ensures Segments(s) == [Head(s)] + Segments(After(s)) && Rest(s) == Rest(After(s))
  {
    hide Head, After;
  }

  /** Framing is undone: message by message the stream gives back what was written. */
  lemma {:induction false} SegmentsOf(messages: seq<Bytes>, stream: Bytes)
    requires Clean(messages)
    ensures Segments(Frame(messages) + stream) == messages + Segments(stream)
    ensures Rest(Frame(messages) + stream) == Rest(stream)
  {
    hide Find, Segments, Rest, Has;
    if messages == [] {
      assert Frame(messages) + stream == stream;
    } else {
      var m, rest := messages[0], Frame(messages[1..]) + stream;
      assert Frame(messages) + stream == m + [NUL] + rest;
      SegmentsOf(messages[1..], stream);
      FirstOfStream(m, rest);
      assert [m] + (messages[1..] + Segments(stream)) == messages + Segments(stream);
    }
  }

  lemma FirstOfStream(m: Bytes, rest: Bytes)
    requires !Has(m, NUL)
    ensures Segments(m + [NUL] + rest) == [m] + Segments(rest) && Rest(m + [NUL] + rest) == Rest(rest)
  {
    hide Find, Segments, Rest, Has;
    var s := m + [NUL] + rest;
    FindFirst(m, rest, NUL);
    NextSegment(s);
    assert s[..|m|] == m && s[|m| + 1..] == rest;
  }

  lemma NoSegments(s: Bytes)
    requires !Has(s, NUL)
    ensures Segments(s) == [] && Rest(s) == s
  {
    FindMisses(s, NUL);
  }

  /** The messages before the first that raises. */
  function Until(isInt: string -> bool, messages: seq<Bytes>): seq<Bytes> {
    if messages == [] || Raises(isInt, messages[0]) then [] else [messages[0]] + Until(isInt, messages[1..])
  }

  ghost predicate SomeRaises(isInt: string -> bool, messages: seq<Bytes>) {
    exists m :: m in messages && Raises(isInt, m)
  }

  lemma {:induction false} UntilRaising(isInt: string -> bool, fine: seq<Bytes>, others: seq<Bytes>)
    requires forall m :: m in fine ==> !Raises(isInt, m)
    requires others != [] && Raises(isInt, others[0])
    ensures Until(isInt, fine + others) == fine && SomeRaises(isInt, fine + others)
  {
    hide Raises;
    if fine == [] {
      assert fine + others == others;
    } else {
      UntilRaising(isInt, fine[1..], others);
      assert (fine + others)[1..] == fine[1..] + others;
    }
    assert (fine + others)[|fine|] == others[0];
  }

  lemma {:induction false} UntilAll(isInt: string -> bool, fine: seq<Bytes>)
    requires forall m :: m in fine ==> !Raises(isInt, m)
    ensures Until(isInt, fine) == fine && !SomeRaises(isInt, fine)
  {
    hide Raises;
    if fine != [] { UntilAll(isInt, fine[1..]); }
  }

  /** These messages went out as these calls. */
  ghost predicate Dispatched(isInt: string -> bool, messages: seq<Bytes>, calls: seq<Call>) {
    && Clean(messages) && (forall m :: m in messages ==> !Raises(isInt, m))
    && |calls| == |messages| && forall i :: 0 <= i < |calls| ==>
         !Raises(isInt, messages[i]) && calls[i] == Answer(messages[i])
  }

  /** In the middle of a stream: what has been dispatched and what is left of it. */
  ghost predicate Reading(isInt: string -> bool, stream: Bytes, messages: seq<Bytes>, calls: seq<Call>, buffer: Bytes) {
    Frame(messages) + buffer == stream && Dispatched(isInt, messages, calls)
  }

  /** What has been read when a message raises, or when no terminator is left. */
  lemma ReadSoFar(isInt: string -> bool, stream: Bytes, messages: seq<Bytes>, calls: seq<Call>, buffer: Bytes)
    requires Reading(isInt, stream, messages, calls, buffer)
    ensures Frame(messages) + buffer == stream && Dispatched(isInt, messages, calls)
    ensures !Has(buffer, NUL) ==>
      messages == Until(isInt, Segments(stream)) && !SomeRaises(isInt, Segments(stream)) && buffer == Rest(stream)
    ensures Find(buffer, NUL) < |buffer| && Raises(isInt, buffer[..Find(buffer, NUL)]) ==>
      messages == Until(isInt, Segments(stream)) && SomeRaises(isInt, Segments(stream))
  {
    SegmentsOf(messages, buffer);
    hide Raises, Segments, Has, Find, Until, Answer, SomeRaises, Frame;
    if !Has(buffer, NUL) {
      NoSegments(buffer);
      UntilAll(isInt, messages);
      assert messages + [] == messages;
    }
    if Find(buffer, NUL) < |buffer| && Raises(isInt, buffer[..Find(buffer, NUL)]) {
      NextSegment(buffer);
      UntilRaising(isInt, messages, Segments(buffer));
    }
  }

  /** Cutting the buffer at its first NUL moves one message from the buffer to those dispatched. */
  lemma FrameSnoc(messages: seq<Bytes>, buffer: Bytes, stream: Bytes)
    requires Frame(messages) + buffer == stream && Find(buffer, NUL) < |buffer|
    ensures var end := Find(buffer, NUL);
      && Frame(messages + [buffer[..end]]) + buffer[end + 1..] == stream
      && !Has(buffer[..end], NUL)
  {
    var end := Find(buffer, NUL);
    var message, rest := buffer[..end], buffer[end + 1..];
    FindMisses(message, NUL);
    hide Find, Has;
    FrameJoin(messages, [message]);
    OneFrame(message);
    hide Frame;
    assert buffer == message + [NUL] + rest;
    assert Frame(messages) + (message + [NUL] + rest) == (Frame(messages) + (message + [NUL])) + rest;
  }

  lemma OneFrame(message: Bytes)
    ensures Frame([message]) == message + [NUL]
  {
    assert Frame([]) == [];
  }

  lemma DispatchedSnoc(isInt: string -> bool, messages: seq<Bytes>, calls: seq<Call>, m: Bytes)
    requires Dispatched(isInt, messages, calls) && !Has(m, NUL) && !Raises(isInt, m)
    ensures Dispatched(isInt, messages + [m], calls + [Answer(m)])
  {
    hide Has, Raises, Answer;
  }

  /** One message more. */
  lemma ReadOn(isInt: string -> bool, stream: Bytes, messages: seq<Bytes>, calls: seq<Call>, buffer: Bytes)
    requires Reading(isInt, stream, messages, calls, buffer) && Find(buffer, NUL) < |buffer|
    requires !Raises(isInt, buffer[..Find(buffer, NUL)])
    ensures var end := Find(buffer, NUL);
      Reading(isInt, stream, messages + [buffer[..end]], calls + [Answer(buffer[..end])], buffer[end + 1..])
  {
    var message := buffer[..Find(buffer, NUL)];
    FrameSnoc(messages, buffer, stream);
    CanBeAnswered(isInt, message);
    hide Find, Has, Frame, Raises, Answer, Dispatched;
    DispatchedSnoc(isInt, messages, calls, message);
  }

  lemma NoTerminator(s: Bytes)
    requires Find(s, NUL) == |s|
    ensures !Has(s, NUL)
  {
  }

  class FifoReader {
    const isInt: string -> bool
    var fifobuffer: Bytes

    constructor (isInt: string -> bool)
      ensures fifobuffer == [] && this.isInt == isInt
    {
      this.isInt, fifobuffer := isInt, [];
    }

    /**
     `readfifo`. Nothing is lost or invented: the messages dispatched and the buffer make up the old
     buffer and the data. It raises exactly if one of their NUL-terminated messages does; the messages
     before the first of these are dispatched, and it stays at the head of the buffer.
     */
    method ReadFifo(data: Bytes) returns (messages: seq<Bytes>, calls: seq<Call>, raised: bool)
      modifies this
      ensures Frame(messages) + fifobuffer == old(fifobuffer) + data
      ensures Dispatched(isInt, messages, calls)
      ensures messages == Until(isInt, Segments(old(fifobuffer) + data))
      ensures raised <==> SomeRaises(isInt, Segments(old(fifobuffer) + data))
      ensures !raised ==> !Has(fifobuffer, NUL) && fifobuffer == Rest(old(fifobuffer) + data)
      ensures raised ==> Has(fifobuffer, NUL) && Raises(isInt, fifobuffer[..Find(fifobuffer, NUL)])
    {
      hide Find, Has, Frame, Raises, Answer, Dispatched, Reading, Until, Segments, SomeRaises, Rest;
      ghost var stream := fifobuffer + data;
      fifobuffer := fifobuffer + data;
      messages, calls, raised := [], [], false;
      NothingRead(isInt, stream);
      while fifobuffer != []
        invariant Reading(isInt, stream, messages, calls, fifobuffer)
        decreases |fifobuffer|
      {
        var end := Find(fifobuffer, NUL);
        if end == |fifobuffer| {
          NoTerminator(fifobuffer);
          ReadSoFar(isInt, stream, messages, calls, fifobuffer);
          return;
        }
        var message, nextmsg := fifobuffer[..end], fifobuffer[end + 1..];
        if Raises(isInt, message) {
          assert Has(fifobuffer, NUL) by { HasAt(fifobuffer, end); }
          ReadSoFar(isInt, stream, messages, calls, fifobuffer);
          return messages, calls, true;
        }
        CanBeAnswered(isInt, message);
        ReadOn(isInt, stream, messages, calls, fifobuffer);
        messages, calls := messages + [message], calls + [Answer(message)];
        fifobuffer := nextmsg;
      }
      NoTerminator([]);
      ReadSoFar(isInt, stream, messages, calls, fifobuffer);
    }
  }

  lemma HasAt(s: Bytes, i: nat)
    requires i < |s| && s[i] == NUL
    ensures Has(s, NUL)
  {
  }

  lemma NothingRead(isInt: string -> bool, stream: Bytes)
    ensures Reading(isInt, stream, [], [], stream) && Find<byte>([], NUL) == 0
  {
  }

  function Concat(chunks: seq<Bytes>): Bytes {
    if chunks == [] then [] else Concat(chunks[..|chunks| - 1]) + chunks[|chunks| - 1]
  }

  lemma ChunkStep(chunks: seq<Bytes>, i: nat, messages: seq<Bytes>, before: Bytes, more: seq<Bytes>, after: Bytes)
    requires i < |chunks| && Frame(messages) + before == Concat(chunks[..i]) && Frame(more) + after == before + chunks[i]
    ensures Frame(messages + more) + after == Concat(chunks[..i + 1])
  {
    assert chunks[..i + 1][..i] == chunks[..i];
    FrameJoin(messages, more);
    assert (Frame(messages) + Frame(more)) + after == Frame(messages) + (Frame(more) + after);
    assert (Frame(messages) + before) + chunks[i] == Frame(messages) + (before + chunks[i]);
  }

  lemma {:induction false} ConcatSplit(chunks: seq<Bytes>, n: nat) returns (more: Bytes)
    requires n <= |chunks|
    ensures Concat(chunks) == Concat(chunks[..n]) + more
  {
    if n == |chunks| {
      assert chunks[..n] == chunks;
      more := [];
    } else {
      var last := |chunks| - 1;
      more := ConcatSplit(chunks[..last], n);
      assert chunks[..last][..n] == chunks[..n];
      more := more + chunks[last];
    }
  }

  /** Where a message raises, what comes after it makes no difference. */
  lemma RaisedForGood(isInt: string -> bool, stream: Bytes, messages: seq<Bytes>, calls: seq<Call>, buffer: Bytes,
      more: Bytes)
    requires Frame(messages) + buffer == stream && Dispatched(isInt, messages, calls)
    requires Has(buffer, NUL) && Raises(isInt, buffer[..Find(buffer, NUL)])
    ensures messages == Until(isInt, Segments(stream + more)) && SomeRaises(isInt, Segments(stream + more))
  {
    hide Find, Has, Raises, Segments, Until, SomeRaises, Frame, Dispatched;
    FindMisses(buffer, NUL);
    SameHead(buffer, more);
    assert Frame(messages) + (buffer + more) == stream + more;
    ReadSoFar(isInt, stream + more, messages, calls, buffer + more);
  }

  lemma SameHead(buffer: Bytes, more: Bytes)
    requires Find(buffer, NUL) < |buffer|
    ensures var end := Find(buffer, NUL);
      Find(buffer + more, NUL) == end && (buffer + more)[..end] == buffer[..end]
  {
    var end := Find(buffer, NUL);
    var s := buffer + more;
    assert s[end] == NUL && forall k :: 0 <= k < end ==> s[k] == buffer[k];
  }

  lemma DispatchedJoin(isInt: string -> bool, m: seq<Bytes>, calls: seq<Call>, more: seq<Bytes>, moreCalls: seq<Call>)
    requires Dispatched(isInt, m, calls) && Dispatched(isInt, more, moreCalls)
    ensures Dispatched(isInt, m + more, calls + moreCalls)
  {
    hide Has, Raises, Answer;
  }

  /**
   Reading chunk after chunk; the task ends where a message raises. Messages, calls and whether it
   raises are functions of the stream, and so is the buffer in the end unless it does.
   */
  method ReadChunks(reader: FifoReader, chunks: seq<Bytes>)
    returns (messages: seq<Bytes>, calls: seq<Call>, raised: bool)
    requires reader.fifobuffer == []
    modifies reader
    ensures Dispatched(reader.isInt, messages, calls)
    ensures messages == Until(reader.isInt, Segments(Concat(chunks)))
    ensures raised <==> SomeRaises(reader.isInt, Segments(Concat(chunks)))
    ensures !raised ==> Frame(messages) + reader.fifobuffer == Concat(chunks) && reader.fifobuffer == Rest(Concat(chunks))
    ensures !raised ==> !Has(reader.fifobuffer, NUL)
    ensures raised ==> Has(reader.fifobuffer, NUL)
    ensures raised ==> Raises(reader.isInt, reader.fifobuffer[..Find(reader.fifobuffer, NUL)])
  {
    hide Frame, Has, Find, Concat, Raises, Dispatched, Until, Segments, SomeRaises, Rest;
    messages, calls, raised := [], [], false;
    NoChunks(reader.isInt);
    for i := 0 to |chunks|
      invariant Frame(messages) + reader.fifobuffer == Concat(chunks[..i]) && !Has(reader.fifobuffer, NUL)
      invariant Dispatched(reader.isInt, messages, calls)
    {
      ghost var before := reader.fifobuffer;
      var more, moreCalls;
      more, moreCalls, raised := reader.ReadFifo(chunks[i]);
      ChunkStep(chunks, i, messages, before, more, reader.fifobuffer);
      DispatchedJoin(reader.isInt, messages, calls, more, moreCalls);
      messages, calls := messages + more, calls + moreCalls;
      if raised {
        ghost var later := ConcatSplit(chunks, i + 1);
        RaisedForGood(reader.isInt, Concat(chunks[..i + 1]), messages, calls, reader.fifobuffer, later);
        return;
      }
    }
    assert chunks[..|chunks|] == chunks;
    ReadSoFar(reader.isInt, Concat(chunks), messages, calls, reader.fifobuffer);
  }

  lemma NoChunks(isInt: string -> bool)
    ensures Dispatched(isInt, [], []) && Frame([]) + [] == Concat([]) && !Has<byte>([], NUL)
  {
  }

  lemma CallsDetermined(isInt: string -> bool, messages: seq<Bytes>, calls: seq<Call>, calls': seq<Call>)
    requires Dispatched(isInt, messages, calls) && Dispatched(isInt, messages, calls')
    ensures calls == calls'
  {
  }

  /** Two ways to cut one stream: the same calls, and the same end. */
  method TwoChunkings(isInt: string -> bool, chunks: seq<Bytes>, chunks': seq<Bytes>)
    returns (calls: seq<Call>, calls': seq<Call>, raised: bool, raised': bool, left: Bytes, left': Bytes)
    requires Concat(chunks) == Concat(chunks')
    ensures calls == calls' && raised == raised'
    ensures !raised ==> left == left'
  {
    var reader := new FifoReader(isInt);
    var reader' := new FifoReader(isInt);
    var m, m';
    m, calls, raised := ReadChunks(reader, chunks);
    m', calls', raised' := ReadChunks(reader', chunks');
    CallsDetermined(isInt, m, calls, calls');
    left, left' := reader.fifobuffer, reader'.fifobuffer;
  }

  lemma OneRaising(isInt: string -> bool, m: Bytes)
    requires !Has(m, NUL) && Raises(isInt, m)
    ensures SomeRaises(isInt, Segments(m + [NUL])) && Until(isInt, Segments(m + [NUL])) == []
  {
    FirstOfStream(m, []);
    NoSegments([]);
    hide Segments, Raises, Find, Has;
    assert m + [NUL] + [] == m + [NUL] && [m] + [] == [m];
    UntilRaising(isInt, [], [m]);
    assert [] + [m] == [m];
  }

  /** Whatever message raises: read by itself, it stays in the buffer. */
  method StaysInBuffer(isInt: string -> bool, m: Bytes) returns (reader: FifoReader, raised: bool)
    requires !Has(m, NUL) && Raises(isInt, m)
    ensures raised && reader.fifobuffer == m + [NUL]
  {
    hide Segments, Raises, Find, Has, Until, SomeRaises;
    reader := new FifoReader(isInt);
    var messages, calls;
    messages, calls, raised := reader.ReadFifo(m + [NUL]);
    OneRaising(isInt, m);
    assert [] + (m + [NUL]) == m + [NUL];
  }

  /** A debug message without a text. */
  method DebugWithoutText(isInt: string -> bool, text: string) returns (reader: FifoReader, raised: bool)
    requires text == "bbdebug" + " " + "x"
    ensures raised && reader.fifobuffer == Encode(text) + [NUL]
  {
    assert NUL as char !in text && !Has("x", ' ');
    hide Encode, Decode, TextFails, Raises, Has;
    DecodeEncode(text);
    DebugRaises(isInt, "x", "");
    RaisesIff(isInt, Encode(text));
    AbsentFromBytes(text, NUL);
    Among(Encode(text), NUL);
    reader, raised := StaysInBuffer(isInt, Encode(text));
  }

  /** A note whose value is the single byte 0xff, which is not UTF-8. */
  method UndecodableNote(isInt: string -> bool, note: Bytes) returns (reader: FifoReader, raised: bool)
    requires note == Encode("bbnote") + [SPACE] + [0xff]
    ensures raised && reader.fifobuffer == note + [NUL]
  {
    assert NUL as char !in "bbnote";
    AbsentFromBytes("bbnote", NUL);
    hide Encode;
    assert Width([0xff]) == 0 && Decode([0xff]) == None;
    DecodeSplit(Encode("bbnote"), SPACE, [0xff]);
    RaisesIff(isInt, note);
    Among(note, NUL);
    reader, raised := StaysInBuffer(isInt, note);
  }

  /** Chunking does not matter: what is dispatched, and what is left, depends on the stream alone. */
  lemma ChunkingDoesNotMatter(chunks: seq<Bytes>, chunks': seq<Bytes>, m: seq<Bytes>, m': seq<Bytes>,
      left: Bytes, left': Bytes)
    requires Concat(chunks) == Concat(chunks')
    requires Clean(m) && Clean(m') && !Has(left, NUL) && !Has(left', NUL)
    requires Frame(m) + left == Concat(chunks) && Frame(m') + left' == Concat(chunks')
    ensures m == m' && left == left'
  {
    ReadingIsUnique(m, m', left, left');
  }

  /** Whole messages come out as they went in, however the stream was cut. */
  lemma MessagesArrive(sent: seq<Bytes>, chunks: seq<Bytes>, m: seq<Bytes>, left: Bytes)
    requires Clean(sent) && Concat(chunks) == Frame(sent)
    requires Clean(m) && !Has(left, NUL) && Frame(m) + left == Concat(chunks)
    ensures m == sent && left == []
  {
    assert Frame(sent) + [] == Frame(sent);
    ReadingIsUnique(m, sent, left, []);
  }
}
