/**
 meta/classes-global/logging.bbclass on the one side of the FIFO, `readfifo` of bitbake/lib/bb/build.py on
 the other: what a shell task logs arrives as the call of the same name.
 */
module ShellLogging {
  import opened Fifo
  import opened Options
  import opened Utf8

  /** The logging functions of the shell; `bbdebug` has a level before its text. */
  datatype Shell = BbPlain | BbNote | BbWarn | BbError | BbFatal | BbFatalLog | BbDebug(level: string)

  /** What the function prints into the FIFO, before the NUL; `text` is what `%b` makes of the arguments. */
  function Written(f: Shell, text: string): string {
    match f
    case BbPlain => "bbplain" + " " + text
    case BbNote => "bbnote" + " " + text
    case BbWarn => "bbwarn" + " " + text
    case BbError => "bberror" + " " + text
    case BbFatal => "bbfatal" + " " + text
    case BbFatalLog => "bbfatal_log" + " " + text
    case BbDebug(level) => "bbdebug" + " " + (level + " " + text)
  }

  /** The function of the logger that it stands for. */
  function Meant(f: Shell, text: string): Call {
    match f
    case BbPlain => Plain(text)
    case BbNote => Note(text)
    case BbWarn => Warn(text)
    case BbError => Error(text, false)
    case BbFatal => Error(text, false)
    case BbFatalLog => Error(text, true)
    case BbDebug(level) => Debug(level, text)
  }

  predicate Digits(s: string) { forall c :: c in s ==> '0' <= c <= '9' }

  /** `bbdebug` prints its usage instead if its level has anything but digits. */
  predicate Accepted(f: Shell) { f.BbDebug? ==> Digits(f.level) }

  /** What is needed of `int`: it accepts a row of digits, and not the empty string. */
  ghost predicate ReadsDigits(isInt: string -> bool) {
    !isInt("") && forall s :: s != "" && Digits(s) ==> isInt(s)
  }

  lemma TextSplits(cmd: string, value: string)
    requires !Has(cmd, ' ')
    ensures SplitOnce(cmd + " " + value, ' ') == (cmd, value)
  {
    SplitJoined(cmd, ' ', value);
  }

  lemma NoSpaceInDigits(level: string)
    requires Digits(level)
    ensures !Has(level, ' ')
  {
    assert ' ' !in level;
    Among(level, ' ');
  }

  lemma WrittenSplits(f: Shell, text: string)
    requires Accepted(f)
    ensures var (cmd, value) := SplitOnce(Written(f, text), ' ');
      && CallOf(cmd, value) == Meant(f, text)
      && (cmd == "bbdebug" <==> f.BbDebug?) && (f.BbDebug? ==> value == f.level + " " + text)
  {
    hide Find, SplitOnce, Has;
    match f
    case BbPlain => Among("bbplain", ' '); TextSplits("bbplain", text);
    case BbNote => Among("bbnote", ' '); TextSplits("bbnote", text);
    case BbWarn => Among("bbwarn", ' '); TextSplits("bbwarn", text);
    case BbError => Among("bberror", ' '); TextSplits("bberror", text);
    case BbFatal => Among("bbfatal", ' '); TextSplits("bbfatal", text);
    case BbFatalLog => Among("bbfatal_log", ' '); TextSplits("bbfatal_log", text);
    case BbDebug(level) =>
      Among("bbdebug", ' ');
      TextSplits("bbdebug", level + " " + text);
      NoSpaceInDigits(level);
      TextSplits(level, text);
  }

  /**
   A message that the shell functions accept is dispatched as the call it stands for, with one exception:
   `bbdebug` with an empty level passes the check of the shell function, and `int` raises on it.
   */
  lemma ShellCallArrives(isInt: string -> bool, f: Shell, text: string)
    requires ReadsDigits(isInt) && Accepted(f)
    ensures Raises(isInt, Encode(Written(f, text))) <==> f == BbDebug("")
    ensures f != BbDebug("") ==>
      var message := Encode(Written(f, text)); Decoded(message).Some? && Answer(message) == Meant(f, text)
  {
    hide Encode, Decode, SplitOnce, CallOf, Written, Meant, Has, Raises, TextFails, Digits, ReadsDigits, Accepted;
    DecodeEncode(Written(f, text));
    RaisesIff(isInt, Encode(Written(f, text)));
    WrittenSplits(f, text);
    LevelFails(isInt, f, text);
    if !Raises(isInt, Encode(Written(f, text))) { CanBeAnswered(isInt, Encode(Written(f, text))); }
  }

  lemma LevelFails(isInt: string -> bool, f: Shell, text: string)
    requires ReadsDigits(isInt) && Accepted(f)
    ensures TextFails(isInt, Written(f, text)) <==> f == BbDebug("")
  {
    hide SplitOnce, Has, CallOf, Meant, Digits, ReadsDigits;
    if f.BbDebug? {
      DebugFails(isInt, f.level, text);
    } else {
      hide Written;
      WrittenSplits(f, text);
    }
  }

  lemma DebugFails(isInt: string -> bool, level: string, text: string)
    requires ReadsDigits(isInt) && Digits(level)
    ensures TextFails(isInt, "bbdebug" + " " + (level + " " + text)) <==> level == ""
  {
    hide TextFails, SplitOnce, Has;
    NoSpaceInDigits(level);
    DebugRaises(isInt, level, text);
    hide Digits;
  }

  // ---- a whole task ----

  type Log = seq<(Shell, string)>

  /** No NUL is printed within a message, and the levels are numbers. */
  ghost predicate Printable(log: Log) {
    forall e :: e in log ==> Accepted(e.0) && e.0 != BbDebug("") && NUL as char !in Written(e.0, e.1)
  }

  function MessagesOf(log: Log): (messages: seq<Bytes>)
    ensures |messages| == |log| && forall i :: 0 <= i < |log| ==> messages[i] == Encode(Written(log[i].0, log[i].1))
  {
    seq(|log|, i requires 0 <= i < |log| => Encode(Written(log[i].0, log[i].1)))
  }

  lemma LogArrives(isInt: string -> bool, log: Log, stream: Bytes)
    requires ReadsDigits(isInt) && Printable(log) && stream == Frame(MessagesOf(log))
    ensures Segments(stream) == MessagesOf(log) && Rest(stream) == []
    ensures Until(isInt, MessagesOf(log)) == MessagesOf(log) && !SomeRaises(isInt, MessagesOf(log))
  {
    var messages := MessagesOf(log);
    hide Written, Encode, Segments, Rest, Raises, Has, Frame, Until, SomeRaises;
    forall m | m in messages ensures !Has(m, NUL) && !Raises(isInt, m) {
      var i :| 0 <= i < |messages| && messages[i] == m;
      assert log[i] in log;
      ShellCallArrives(isInt, log[i].0, log[i].1);
      AbsentFromBytes(Written(log[i].0, log[i].1), NUL);
      Among(m, NUL);
    }
    assert !Has<byte>([], NUL) by { Among<byte>([], NUL); }
    SegmentsOf(messages, []);
    NoSegments([]);
    assert Frame(messages) + [] == stream && messages + [] == messages;
    UntilAll(isInt, messages);
  }

  /** However the stream is cut, the calls are those that the task's log means, one by one and in order. */
  method ShellTask(isInt: string -> bool, log: Log, chunks: seq<Bytes>)
    returns (calls: seq<Call>, raised: bool, left: Bytes)
    requires ReadsDigits(isInt) && Printable(log) && Concat(chunks) == Frame(MessagesOf(log))
    ensures !raised && left == [] && |calls| == |log|
    ensures forall i :: 0 <= i < |log| ==> calls[i] == Meant(log[i].0, log[i].1)
  {
    hide Written, Meant, Encode, Frame, Segments, Until, SomeRaises, Rest, Concat, Raises, Find, Has, Printable, Answer;
    var reader := new FifoReader(isInt);
    var messages;
    LogArrives(isInt, log, Concat(chunks));
    messages, calls, raised := ReadChunks(reader, chunks);
    left := reader.fifobuffer;
    CallsAre(isInt, log, messages, calls);
  }

  lemma CallsAre(isInt: string -> bool, log: Log, messages: seq<Bytes>, calls: seq<Call>)
    requires ReadsDigits(isInt) && Printable(log) && messages == MessagesOf(log) && Dispatched(isInt, messages, calls)
    ensures |calls| == |log| && forall i :: 0 <= i < |log| ==> calls[i] == Meant(log[i].0, log[i].1)
  {
    hide Written, Meant, Encode, Raises, Has, Answer;
    forall i | 0 <= i < |log| ensures calls[i] == Meant(log[i].0, log[i].1) {
      assert log[i] in log;
      ShellCallArrives(isInt, log[i].0, log[i].1);
    }
  }
}
