/**
 * `SSHClientHelper.sendClipboardToLinux`: upload the clipboard text as a time-stamped file
 * over SFTP and report the outcome through a callback.
 *
 * JSch is abstract here. Every library call the helper makes is one event of a trace, and
 * the environment decides, step by step, whether that call throws: `faults[k]` is the
 * exception thrown by the k-th step of the fixed order (0 = addIdentity, ..., 8 = put), and
 * `callback` says whether `onSuccess` itself throws.
 */
module SshTransfer {
  import opened Wrappers
  import opened JavaInt
  import opened Destinations
  import Utf8

  /** The session timeout, in milliseconds. */
  const TIMEOUT: int := 30000

  /** The number of library steps in the try block. */
  const STEP_COUNT: nat := 9
  /** Position of `session.connect()` in the step order. */
  const SESSION_CONNECT: nat := 4
  /** Position of `channel.connect()` in the step order. */
  const CHANNEL_CONNECT: nat := 6

  const HOST_KEY_OPTION: string := "StrictHostKeyChecking"

  // ---------------------------------------------------------------------------------------
  // The file name
  // ---------------------------------------------------------------------------------------

  /** A reading of the wall clock, already split into calendar fields. */
  datatype DateTime = DateTime(year: nat, month: nat, day: nat, hour: nat, minute: nat, second: nat)

  /**
   * The ranges `SimpleDateFormat` is given here. The day may be 31 in every month, so the
   * lemmas below cover a superset of the real calendar dates.
   */
  predicate ValidDateTime(t: DateTime)
  {
    1 <= t.year && 1 <= t.month <= 12 && 1 <= t.day <= 31
    && t.hour < 24 && t.minute < 60 && t.second < 60
  }

  /** `yyyyMMdd`: the year has at least four digits, month and day two each. */
  function DatePart(t: DateTime): string
  {
    Pad(t.year, 4) + Pad(t.month, 2) + Pad(t.day, 2)
  }

  /** `HHmmss`: two digits each. */
  function TimePart(t: DateTime): string
  {
    Pad(t.hour, 2) + Pad(t.minute, 2) + Pad(t.second, 2)
  }

  /** `SimpleDateFormat("yyyyMMdd_HHmmss")`. */
  function Timestamp(t: DateTime): string
  {
    DatePart(t) + "_" + TimePart(t)
  }

  function FileName(t: DateTime): (n: string)
    ensures |n| >= 14 && n[..10] == "clipboard_" && n[|n| - 4..] == ".txt"
    ensures ValidDateTime(t) && t.year <= 9999 ==> |n| == 29
  {
    var n := "clipboard_" + Timestamp(t) + ".txt";
    if ValidDateTime(t) && t.year <= 9999 then DateFields(t); TimeFields(t); n else n
  }

  lemma Split3(a: string, b: string, c: string)
    ensures (a + b + c)[..|a|] == a
    ensures (a + b + c)[|a|..|a| + |b|] == b
    ensures (a + b + c)[|a| + |b|..] == c
  {
  }

  /** Each digit field of the date reads back as the calendar field it was made from. */
  lemma DateFields(t: DateTime)
    requires ValidDateTime(t) && t.year <= 9999
    ensures |DatePart(t)| == 8 && AllDigits(DatePart(t))
    ensures DigitsValue(DatePart(t)[..4]) == t.year
    ensures DigitsValue(DatePart(t)[4..6]) == t.month
    ensures DigitsValue(DatePart(t)[6..]) == t.day
  {
    Pow10Step(0); Pow10Step(1); Pow10Step(2); Pow10Step(3);
    PadLength(t.year, 4); PadLength(t.month, 2); PadLength(t.day, 2);
    PadValue(t.year, 4); PadValue(t.month, 2); PadValue(t.day, 2);
    Split3(Pad(t.year, 4), Pad(t.month, 2), Pad(t.day, 2));
  }

  /** Each digit field of the time of day reads back as the field it was made from. */
  lemma TimeFields(t: DateTime)
    requires ValidDateTime(t)
    ensures |TimePart(t)| == 6 && AllDigits(TimePart(t))
    ensures DigitsValue(TimePart(t)[..2]) == t.hour
    ensures DigitsValue(TimePart(t)[2..4]) == t.minute
    ensures DigitsValue(TimePart(t)[4..]) == t.second
  {
    Pow10Step(0); Pow10Step(1);
    PadLength(t.hour, 2); PadLength(t.minute, 2); PadLength(t.second, 2);
    PadValue(t.hour, 2); PadValue(t.minute, 2); PadValue(t.second, 2);
    Split3(Pad(t.hour, 2), Pad(t.minute, 2), Pad(t.second, 2));
  }

  /** For a four-digit year the name is 29 characters, with the date and the time in fixed places. */
  lemma FileNameFields(t: DateTime)
    requires ValidDateTime(t) && t.year <= 9999
    ensures |FileName(t)| == 29
    ensures FileName(t)[..10] == "clipboard_" && FileName(t)[18] == '_' && FileName(t)[25..] == ".txt"
    ensures FileName(t)[10..18] == DatePart(t) && FileName(t)[19..25] == TimePart(t)
  {
    DateFields(t);
    TimeFields(t);
    var f := FileName(t);
    assert f == "clipboard_" + DatePart(t) + ("_" + TimePart(t) + ".txt");
    Split3("clipboard_", DatePart(t), "_" + TimePart(t) + ".txt");
    Split3("_", TimePart(t), ".txt");
  }

  /** Two readings of the clock in the same second, and only those, give the same name. */
  lemma FileNameInjective(t1: DateTime, t2: DateTime)
    requires ValidDateTime(t1) && t1.year <= 9999
    requires ValidDateTime(t2) && t2.year <= 9999
    ensures FileName(t1) == FileName(t2) <==> t1 == t2
  {
    FileNameFields(t1);
    FileNameFields(t2);
    if FileName(t1) == FileName(t2) {
      DateFields(t1);
      DateFields(t2);
      TimeFields(t1);
      TimeFields(t2);
    }
  }

  // ---------------------------------------------------------------------------------------
  // Exceptions and messages
  // ---------------------------------------------------------------------------------------

  /** The three catch clauses: `JSchException`, `SftpException`, any other `Exception`. */
  datatype ExceptionKind = JSchError | SftpError | OtherError

  /** A thrown exception: its class and `getMessage()`, which may be null. */
  datatype Fault = Fault(kind: ExceptionKind, message: Option<string>)

  /** What `onSuccess` does: return, or throw an unchecked exception with this message. */
  datatype Callback = Returns | Throws(message: Option<string>)

  /** String concatenation writes a null message as "null". */
  function MessageText(m: Option<string>): string
  {
    match m
    case None => "null"
    case Some(s) => s
  }

  function Prefix(k: ExceptionKind): string
  {
    match k
    case JSchError => "SSH Error: "
    case SftpError => "SFTP Error: "
    case OtherError => "Error: "
  }

  /** The text handed to `onError` by the catch clause for `f`. */
  function ErrorMessage(f: Fault): (m: string)
    ensures |m| >= |Prefix(f.kind)| && m[..|Prefix(f.kind)|] == Prefix(f.kind)
  {
    Prefix(f.kind) + MessageText(f.message)
  }

  /** The error text tells which catch clause ran and what the exception said. */
  lemma ErrorMessageDetermines(f1: Fault, f2: Fault)
    ensures ErrorMessage(f1) == ErrorMessage(f2)
      <==> f1.kind == f2.kind && MessageText(f1.message) == MessageText(f2.message)
  {
    var m1, m2 := ErrorMessage(f1), ErrorMessage(f2);
    if m1 == m2 {
      assert m1[0] == m2[0];
      assert m1[1] == m2[1];
      assert f1.kind == f2.kind;
      var n := |Prefix(f1.kind)|;
      assert m1[n..] == MessageText(f1.message);
      assert m2[n..] == MessageText(f2.message);
    }
  }

  // ---------------------------------------------------------------------------------------
  // The trace
  // ---------------------------------------------------------------------------------------

  /** One call the helper makes, into JSch or into its callback. */
  datatype Event =
    | AddIdentity(keyPath: string)
    | GetSession(user: string, host: string, port: int)
    | SetConfig(key: string, value: string)
    | SetTimeout(millis: int)
    | SessionConnect
    | OpenChannel(channelType: string)
    | ChannelConnect
    | Cd(directory: string)
    | Put(data: seq<Utf8.byte>, filename: string)
    | OnSuccess(filename: string)
    | OnError(message: string)
    | ChannelDisconnect
    | SessionDisconnect

  /** A call made inside the try block before the callback. */
  predicate IsStep(e: Event)
  {
    !(e.OnSuccess? || e.OnError? || e.ChannelDisconnect? || e.SessionDisconnect?)
  }

  predicate IsCallback(e: Event)
  {
    e.OnSuccess? || e.OnError?
  }

  /** What one transfer is asked to do: the target, the key file, the text and the file name. */
  datatype Request = Request(destination: Destination, keyPath: string, content: string, filename: string)

  /** Step `i` of the try block, in the order the code makes them. */
  function Step(r: Request, i: nat): (e: Event)
    requires i < STEP_COUNT
    ensures IsStep(e)
  {
    if i == 0 then AddIdentity(r.keyPath)
    else if i == 1 then GetSession(r.destination.user, r.destination.host, r.destination.port)
    else if i == 2 then SetConfig(HOST_KEY_OPTION, "no")
    else if i == 3 then SetTimeout(TIMEOUT)
    else if i == SESSION_CONNECT then SessionConnect
    else if i == 5 then OpenChannel("sftp")
    else if i == CHANNEL_CONNECT then ChannelConnect
    else if i == 7 then Cd(r.destination.directory)
    else Put(Utf8.Encode(r.content), r.filename)
  }

  /** The first `n` steps. */
  function StepsUpTo(r: Request, n: nat): (s: seq<Event>)
    requires n <= STEP_COUNT
    ensures |s| == n && forall i :: 0 <= i < n ==> s[i] == Step(r, i)
  {
    if n == 0 then [] else StepsUpTo(r, n - 1) + [Step(r, n - 1)]
  }

  /** The first step, at `from` or later, that throws. */
  function FirstFaultFrom(faults: map<nat, Fault>, from: nat): (r: Option<nat>)
    ensures r.Some? ==> from <= r.value < STEP_COUNT && r.value in faults
    ensures r.Some? ==> forall j :: from <= j < r.value ==> j !in faults
    ensures r.None? ==> forall j :: from <= j < STEP_COUNT ==> j !in faults
    decreases STEP_COUNT - from
  {
    if from >= STEP_COUNT then None
    else if from in faults then Some(from)
    else FirstFaultFrom(faults, from + 1)
  }

  function FirstFault(faults: map<nat, Fault>): Option<nat>
  {
    FirstFaultFrom(faults, 0)
  }

  /** The number of steps called: all of them, or up to and including the one that throws. */
  function Called(faults: map<nat, Fault>): (n: nat)
    ensures n <= STEP_COUNT
  {
    match FirstFault(faults)
    case None => STEP_COUNT
    case Some(k) => k + 1
  }

  /** Whether step `i` was called and returned normally. */
  predicate Returned(faults: map<nat, Fault>, i: nat)
  {
    i < Called(faults) && i !in faults
  }

  /** The calls made inside the try block. */
  function TryEvents(r: Request, faults: map<nat, Fault>): seq<Event>
  {
    match FirstFault(faults)
    case Some(k) => StepsUpTo(r, k + 1)
    case None => StepsUpTo(r, STEP_COUNT) + [OnSuccess(r.filename)]
  }

  /** The exception that leaves the try block, if any: a step's, or one thrown by `onSuccess`. */
  function Thrown(faults: map<nat, Fault>, callback: Callback): Option<Fault>
  {
    match FirstFault(faults)
    case Some(k) => Some(faults[k])
    case None =>
      match callback
      case Returns => None
      case Throws(m) => Some(Fault(OtherError, m))
  }

  /** The catch clauses: one `onError` call for an exception. */
  function CatchEvents(thrown: Option<Fault>): seq<Event>
  {
    match thrown
    case None => []
    case Some(f) => [OnError(ErrorMessage(f))]
  }

  /** The `finally` block: disconnect what is connected, channel first. */
  function Cleanup(faults: map<nat, Fault>): (c: seq<Event>)
    ensures c == [] <==> !Returned(faults, SESSION_CONNECT)
    ensures c != [] ==> c[|c| - 1] == SessionDisconnect
    ensures ChannelDisconnect in c <==> Returned(faults, CHANNEL_CONNECT)
    ensures ChannelDisconnect in c ==> c == [ChannelDisconnect, SessionDisconnect]
  {
    (if Returned(faults, CHANNEL_CONNECT) then [ChannelDisconnect] else [])
    + (if Returned(faults, SESSION_CONNECT) then [SessionDisconnect] else [])
  }

  /** The calls of one transfer, in order. */
  function Transfer(r: Request, faults: map<nat, Fault>, callback: Callback): (events: seq<Event>)
    ensures 2 <= |events| <= STEP_COUNT + 4
    ensures events[0] == Step(r, 0) && !IsStep(events[|events| - 1])
  {
    TryEvents(r, faults) + CatchEvents(Thrown(faults, callback)) + Cleanup(faults)
  }

  /** How many callbacks an event sequence makes. */
  function Callbacks(es: seq<Event>): nat
  {
    if es == [] then 0 else (if IsCallback(es[0]) then 1 else 0) + Callbacks(es[1..])
  }

  lemma {:induction false} CallbacksAppend(a: seq<Event>, b: seq<Event>)
    ensures Callbacks(a + b) == Callbacks(a) + Callbacks(b)
    decreases |a|
  {
    if a == [] {
      assert a + b == b;
    } else {
      assert (a + b)[1..] == a[1..] + b;
      CallbacksAppend(a[1..], b);
    }
  }

  lemma {:induction false} NoCallbacks(es: seq<Event>)
    requires forall i :: 0 <= i < |es| ==> !IsCallback(es[i])
    ensures Callbacks(es) == 0
    decreases |es|
  {
    if es != [] {
      NoCallbacks(es[1..]);
    }
  }

  /** Everything after the steps: the success callback, the catch clause and the `finally` block. */
  function AfterSteps(r: Request, faults: map<nat, Fault>, callback: Callback): seq<Event>
  {
    (if FirstFault(faults).None? then [OnSuccess(r.filename)] else [])
    + CatchEvents(Thrown(faults, callback)) + Cleanup(faults)
  }

  lemma TransferSplit(r: Request, faults: map<nat, Fault>, callback: Callback)
    ensures Transfer(r, faults, callback) == StepsUpTo(r, Called(faults)) + AfterSteps(r, faults, callback)
  {
    var steps := StepsUpTo(r, Called(faults));
    var x: seq<Event> := if FirstFault(faults).None? then [OnSuccess(r.filename)] else [];
    var caught := CatchEvents(Thrown(faults, callback));
    assert TryEvents(r, faults) == steps + x;
    Associative(steps, x, caught);
    Associative(steps, x + caught, Cleanup(faults));
  }

  /** After the steps come no more steps, and `onSuccess` only first and only when no step threw. */
  lemma AfterStepsShape(r: Request, faults: map<nat, Fault>, callback: Callback)
    ensures var a := AfterSteps(r, faults, callback);
      (forall i :: 0 <= i < |a| ==> !IsStep(a[i]))
      && (forall i :: 0 <= i < |a| && a[i].OnSuccess? ==> i == 0 && FirstFault(faults).None?)
      && (FirstFault(faults).None? ==> |a| > 0 && a[0] == OnSuccess(r.filename))
  {
    var x: seq<Event> := if FirstFault(faults).None? then [OnSuccess(r.filename)] else [];
    var tail := CatchEvents(Thrown(faults, callback)) + Cleanup(faults);
    assert forall i :: 0 <= i < |tail| ==> !IsStep(tail[i]) && !tail[i].OnSuccess?;
    Associative(x, CatchEvents(Thrown(faults, callback)), Cleanup(faults));
    assert AfterSteps(r, faults, callback) == x + tail;
  }

  /**
   * The steps are made in the fixed order and stop at the first one that throws: the trace
   * starts with the first `Called(faults)` steps and holds no step after them.
   */
  lemma StepsInOrder(r: Request, faults: map<nat, Fault>, callback: Callback)
    ensures var t := Transfer(r, faults, callback);
      Called(faults) <= |t|
      && (forall i :: 0 <= i < Called(faults) ==> t[i] == Step(r, i))
      && (forall i :: Called(faults) <= i < |t| ==> !IsStep(t[i]))
  {
    TransferSplit(r, faults, callback);
    AfterStepsShape(r, faults, callback);
  }

  /** The uploaded bytes are the UTF-8 encoding of the clipboard text and decode back to it. */
  lemma UploadIsClipboardText(r: Request)
    ensures Step(r, STEP_COUNT - 1) == Put(Utf8.Encode(r.content), r.filename)
    ensures Utf8.Decode(Step(r, STEP_COUNT - 1).data) == Some(r.content)
  {
    Utf8.DecodeEncode(r.content);
  }

  /**
   * `onSuccess(filename)` runs exactly when no step threw, right after `put` returned, and
   * with the uploaded file's name.
   */
  lemma SuccessOnlyAfterPut(r: Request, faults: map<nat, Fault>, callback: Callback)
    ensures var t := Transfer(r, faults, callback);
      (OnSuccess(r.filename) in t <==> FirstFault(faults).None?)
      && (forall i :: 0 <= i < |t| && t[i].OnSuccess? ==>
            i == STEP_COUNT && t[i].filename == r.filename
            && t[i - 1] == Put(Utf8.Encode(r.content), r.filename)
            && STEP_COUNT - 1 !in faults)
  {
    var t := Transfer(r, faults, callback);
    var n := Called(faults);
    var a := AfterSteps(r, faults, callback);
    TransferSplit(r, faults, callback);
    AfterStepsShape(r, faults, callback);
    forall i | 0 <= i < |t| && t[i].OnSuccess?
      ensures i == n && FirstFault(faults).None?
    {
      if i >= n {
        assert t[i] == a[i - n];
      }
    }
    if FirstFault(faults).None? {
      assert t[n] == a[0];
    }
  }

  lemma CallbacksOfSteps(r: Request, n: nat)
    requires n <= STEP_COUNT
    ensures Callbacks(StepsUpTo(r, n)) == 0
  {
    NoCallbacks(StepsUpTo(r, n));
  }

  lemma CallbacksOfCleanup(faults: map<nat, Fault>)
    ensures Callbacks(Cleanup(faults)) == 0
  {
    NoCallbacks(Cleanup(faults));
  }

  /** The error text of the step that throws, or of `onSuccess` when it throws, reaches `onError`. */
  lemma ErrorReported(r: Request, faults: map<nat, Fault>, callback: Callback)
    ensures var t := Transfer(r, faults, callback);
      (FirstFault(faults).Some? ==> OnError(ErrorMessage(faults[FirstFault(faults).value])) in t)
      && (FirstFault(faults).None? && callback.Throws? ==>
            OnError(ErrorMessage(Fault(OtherError, callback.message))) in t)
  {
    var t := Transfer(r, faults, callback);
    var before := TryEvents(r, faults);
    if Thrown(faults, callback).Some? {
      assert t[|before|] == OnError(ErrorMessage(Thrown(faults, callback).value));
    }
  }

  /** Unless `onSuccess` throws, exactly one callback runs; if it throws, `onError` follows it. */
  lemma CallbackCount(r: Request, faults: map<nat, Fault>, callback: Callback)
    ensures Callbacks(Transfer(r, faults, callback))
      == (if FirstFault(faults).None? && callback.Throws? then 2 else 1)
  {
    var before := TryEvents(r, faults);
    var caught := CatchEvents(Thrown(faults, callback));
    CallbacksAppend(before, caught);
    CallbacksAppend(before + caught, Cleanup(faults));
    CallbacksOfCleanup(faults);
    CallbacksOfSteps(r, Called(faults));
    if FirstFault(faults).None? {
      CallbacksAppend(StepsUpTo(r, STEP_COUNT), [OnSuccess(r.filename)]);
    }
    assert Callbacks(caught) == (if Thrown(faults, callback).Some? then 1 else 0);
  }

  /** A step that occurs once in the step order is in the trace exactly when it was called. */
  lemma StepPosition(r: Request, t: seq<Event>, n: nat, k: nat)
    requires n <= STEP_COUNT && n <= |t| && k < STEP_COUNT
    requires forall i :: 0 <= i < n ==> t[i] == Step(r, i)
    requires forall i :: n <= i < |t| ==> !IsStep(t[i])
    requires forall i :: 0 <= i < STEP_COUNT && i != k ==> Step(r, i) != Step(r, k)
    ensures Step(r, k) in t <==> k < n
  {
    if Step(r, k) in t {
      var i :| 0 <= i < |t| && t[i] == Step(r, k);
      assert i < n;
    }
    if k < n {
      assert t[k] == Step(r, k);
    }
  }

  /**
   * The `finally` block disconnects the channel exactly when `channel.connect()` returned
   * and the session exactly when `session.connect()` returned, channel first; these are the
   * last calls of every transfer.
   */
  lemma CleanupOnEveryPath(r: Request, faults: map<nat, Fault>, callback: Callback)
    ensures var t := Transfer(r, faults, callback);
      (ChannelDisconnect in t <==> ChannelConnect in t && CHANNEL_CONNECT !in faults)
      && (SessionDisconnect in t <==> SessionConnect in t && SESSION_CONNECT !in faults)
      && |Cleanup(faults)| <= |t| && t[|t| - |Cleanup(faults)|..] == Cleanup(faults)
  {
    var t := Transfer(r, faults, callback);
    var n := Called(faults);
    var body := TryEvents(r, faults) + CatchEvents(Thrown(faults, callback));
    StepsInOrder(r, faults, callback);
    assert t == body + Cleanup(faults);
    forall i | 0 <= i < |body|
      ensures !body[i].ChannelDisconnect? && !body[i].SessionDisconnect?
    {
      if i < n {
        assert body[i] == t[i];
      }
    }
    assert ChannelDisconnect !in body && SessionDisconnect !in body;
    StepPosition(r, t, n, CHANNEL_CONNECT);
    StepPosition(r, t, n, SESSION_CONNECT);
  }

  // ---------------------------------------------------------------------------------------
  // The imperative helper
  // ---------------------------------------------------------------------------------------

  /** A JSch session: where it points, how it is configured, whether it is connected. */
  class Session {
    const user: string
    const host: string
    const port: int
    var strictHostKeyChecking: string
    var timeout: int
    var connected: bool

    /** A new session is unconfigured and not connected. */
    constructor (user: string, host: string, port: int)
      ensures this.user == user && this.host == host && this.port == port
      ensures strictHostKeyChecking == "ask" && timeout == 0 && !connected
    {
      this.user := user;
      this.host := host;
      this.port := port;
      strictHostKeyChecking := "ask";
      timeout := 0;
      connected := false;
    }

    method SetStrictHostKeyChecking(value: string)
      modifies this
      ensures strictHostKeyChecking == value && timeout == old(timeout) && connected == old(connected)
    {
      strictHostKeyChecking := value;
    }

    method SetTimeout(millis: int)
      modifies this
      ensures timeout == millis
      ensures strictHostKeyChecking == old(strictHostKeyChecking) && connected == old(connected)
    {
      timeout := millis;
    }

    method Connect()
      modifies this
      ensures connected
      ensures strictHostKeyChecking == old(strictHostKeyChecking) && timeout == old(timeout)
    {
      connected := true;
    }

    method Disconnect()
      modifies this
      ensures !connected
      ensures strictHostKeyChecking == old(strictHostKeyChecking) && timeout == old(timeout)
    {
      connected := false;
    }
  }

  /** An SFTP channel: whether it is connected and its remote working directory. */
  class ChannelSftp {
    var connected: bool
    var directory: string

    constructor ()
      ensures !connected && directory == ""
    {
      connected := false;
      directory := "";
    }

    method Connect()
      modifies this
      ensures connected && directory == old(directory)
    {
      connected := true;
    }

    method Cd(path: string)
      modifies this
      ensures directory == path && connected == old(connected)
    {
      directory := path;
    }

    method Disconnect()
      modifies this
      ensures !connected && directory == old(directory)
    {
      connected := false;
    }
  }

  /** Whether a step before step `n` throws. */
  predicate FaultBefore(faults: map<nat, Fault>, n: nat)
  {
    FirstFault(faults).Some? && FirstFault(faults).value < n
  }

  /** When no step before `lo` throws, step `k` does, and none in between: `k` is the first to throw. */
  lemma FaultAt(faults: map<nat, Fault>, lo: nat, k: nat)
    requires lo <= k < STEP_COUNT && !FaultBefore(faults, lo)
    requires k in faults && forall j :: lo <= j < k ==> j !in faults
    ensures FirstFault(faults) == Some(k) && Called(faults) == k + 1
    ensures forall i: nat :: Returned(faults, i) <==> i < k
  {
  }

  lemma Associative(a: seq<Event>, b: seq<Event>, c: seq<Event>)
    ensures a + b + c == a + (b + c)
  {
  }

  /** When no step before `lo` throws and none from `lo` on: all were called and returned. */
  lemma NoFault(faults: map<nat, Fault>, lo: nat)
    requires lo <= STEP_COUNT && !FaultBefore(faults, lo)
    requires forall j :: lo <= j < STEP_COUNT ==> j !in faults
    ensures FirstFault(faults) == None && Called(faults) == STEP_COUNT
    ensures forall i: nat :: Returned(faults, i) <==> i < STEP_COUNT
  {
  }

  /**
   * `addIdentity`, `getSession`, `setConfig`, `setTimeout` and `session.connect()`, up to
   * the first that throws.
   */
  method StartSession(r: Request, faults: map<nat, Fault>)
    returns (events: seq<Event>, session: Session?, thrown: Option<Fault>)
    ensures thrown.Some? <==> FaultBefore(faults, SESSION_CONNECT + 1)
    ensures thrown.Some? ==> thrown == Some(faults[FirstFault(faults).value])
    ensures events == StepsUpTo(r, if thrown.Some? then Called(faults) else SESSION_CONNECT + 1)
    ensures (session != null) == Returned(faults, 1)
    ensures session != null ==> fresh(session) && session.connected == Returned(faults, SESSION_CONNECT)
    ensures session != null ==>
      session.user == r.destination.user && session.host == r.destination.host
      && session.port == r.destination.port
    ensures session != null && SESSION_CONNECT < Called(faults) ==>
      session.timeout == TIMEOUT && session.strictHostKeyChecking == "no"
  {
    session := null;
    thrown := None;
    events := [AddIdentity(r.keyPath)];
    if 0 in faults {
      FaultAt(faults, 0, 0);
      thrown := Some(faults[0]);
      return;
    }
    events := events + [GetSession(r.destination.user, r.destination.host, r.destination.port)];
    if 1 in faults {
      FaultAt(faults, 0, 1);
      thrown := Some(faults[1]);
      return;
    }
    session := new Session(r.destination.user, r.destination.host, r.destination.port);
    events := events + [SetConfig(HOST_KEY_OPTION, "no")];
    if 2 in faults {
      FaultAt(faults, 0, 2);
      thrown := Some(faults[2]);
      return;
    }
    session.SetStrictHostKeyChecking("no");
    events := events + [SetTimeout(TIMEOUT)];
    if 3 in faults {
      FaultAt(faults, 0, 3);
      thrown := Some(faults[3]);
      return;
    }
    session.SetTimeout(TIMEOUT);
    events := events + [SessionConnect];
    if 4 in faults {
      FaultAt(faults, 0, 4);
      thrown := Some(faults[4]);
      return;
    }
    session.Connect();
  }

  /**
   * `openChannel("sftp")`, `channel.connect()`, `cd` and `put`, up to the first that throws,
   * on a session that connected.
   */
  method Upload(r: Request, faults: map<nat, Fault>, before: seq<Event>)
    returns (events: seq<Event>, channelSftp: ChannelSftp?, thrown: Option<Fault>)
    requires before == StepsUpTo(r, SESSION_CONNECT + 1) && !FaultBefore(faults, SESSION_CONNECT + 1)
    ensures thrown.Some? <==> FirstFault(faults).Some?
    ensures thrown.Some? ==> thrown == Some(faults[FirstFault(faults).value])
    ensures events == StepsUpTo(r, Called(faults))
    ensures (channelSftp != null) == Returned(faults, CHANNEL_CONNECT)
    ensures channelSftp != null ==> fresh(channelSftp) && channelSftp.connected
    ensures channelSftp != null && Returned(faults, 7) ==> channelSftp.directory == r.destination.directory
  {
    channelSftp := null;
    thrown := None;
    events := before + [OpenChannel("sftp")];
    if 5 in faults {
      FaultAt(faults, 5, 5);
      thrown := Some(faults[5]);
      return;
    }
    var channel := new ChannelSftp();
    events := events + [ChannelConnect];
    if 6 in faults {
      FaultAt(faults, 5, 6);
      thrown := Some(faults[6]);
      return;
    }
    channel.Connect();
    channelSftp := channel;
    events := events + [Cd(r.destination.directory)];
    if 7 in faults {
      FaultAt(faults, 5, 7);
      thrown := Some(faults[7]);
      return;
    }
    channelSftp.Cd(r.destination.directory);
    events := events + [Put(Utf8.Encode(r.content), r.filename)];
    if 8 in faults {
      FaultAt(faults, 5, 8);
      thrown := Some(faults[8]);
      return;
    }
    NoFault(faults, 5);
  }

  /**
   * The body of the transfer thread. It returns the calls it made and the session and
   * channel it left behind (null where the code never obtained one).
   */
  method SendClipboardToLinux(destination: Destination, privateKeyPath: string, clipboardContent: string,
                              now: DateTime, faults: map<nat, Fault>, callback: Callback)
    returns (events: seq<Event>, session: Session?, channelSftp: ChannelSftp?)
    ensures events == Transfer(Request(destination, privateKeyPath, clipboardContent, FileName(now)), faults, callback)
    ensures session != null ==> fresh(session) && !session.connected
    ensures session != null ==>
      session.user == destination.user && session.host == destination.host && session.port == destination.port
    ensures session != null && SESSION_CONNECT < Called(faults) ==>
      session.timeout == TIMEOUT && session.strictHostKeyChecking == "no"
    ensures channelSftp != null ==> fresh(channelSftp) && !channelSftp.connected
  {
    channelSftp := null;
    var thrown: Option<Fault>;
    label attempt: {
      var filename := FileName(now);
      var r := Request(destination, privateKeyPath, clipboardContent, filename);
      events, session, thrown := StartSession(r, faults);
      if thrown.Some? {
        break attempt;
      }
      events, channelSftp, thrown := Upload(r, faults, events);
      if thrown.Some? {
        break attempt;
      }
      events := events + [OnSuccess(filename)];
      if callback.Throws? {
        thrown := Some(Fault(OtherError, callback.message));
      }
    }
    ghost var r := Request(destination, privateKeyPath, clipboardContent, FileName(now));
    assert events == TryEvents(r, faults) && thrown == Thrown(faults, callback);
    ghost var channelUp := Returned(faults, CHANNEL_CONNECT);
    ghost var sessionUp := Returned(faults, SESSION_CONNECT);
    assert (channelSftp != null && channelSftp.connected) == channelUp;
    assert (session != null && session.connected) == sessionUp;
    if thrown.Some? {
      events := events + [OnError(ErrorMessage(thrown.value))];
    }
    ghost var caught := events;
    assert caught == TryEvents(r, faults) + CatchEvents(Thrown(faults, callback));
    if channelSftp != null && channelSftp.connected {
      channelSftp.Disconnect();
      events := events + [ChannelDisconnect];
    }
    assert events == caught + (if channelUp then [ChannelDisconnect] else []);
    ghost var closed := events;
    if session != null && session.connected {
      session.Disconnect();
      events := events + [SessionDisconnect];
    }
    assert events == closed + (if sessionUp then [SessionDisconnect] else []);
    Associative(caught, if channelUp then [ChannelDisconnect] else [], if sessionUp then [SessionDisconnect] else []);
  }
}
