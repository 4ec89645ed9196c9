/**
 * `MainActivity`: the screen that starts and stops the paste server, shows the device's
 * address, imports the SSH key and sends the clipboard to the selected destination.
 * Views are reduced to the state they show (texts, enabled flags); toasts and dialogs are
 * reduced to the outcome they report.
 */
module Activity {
  import opened Wrappers
  import opened JavaInt
  import opened JavaString
  import opened LineReader
  import opened Destinations
  import opened Settings
  import Utf8

  // ---------------------------------------------------------------------------------------
  // The IPv4 address
  // ---------------------------------------------------------------------------------------

  /**
   * `x >> 8k` on a Java `int`: the arithmetic shift rounds toward negative infinity, as
   * Dafny's division by a positive number does.
   */
  function ShiftBytes(x: int, k: nat): int
  {
    if k == 0 then x else ShiftBytes(x, k - 1) / 256
  }

  /** `(ipInt >> 8k) & 0xff`: byte `k` of the two's-complement value, counted from the low end. */
  function Octet(ip: Int32, k: nat): (o: nat)
    ensures o < 256
  {
    ShiftBytes(ip, k) % 256
  }

  function DotJoin(a: string, b: string): string
  {
    a + "." + b
  }

  /** `String.format("%d.%d.%d.%d", ...)` of the four octets, lowest byte first. */
  function FormatIp(ip: Int32): (s: string)
    ensures 7 <= |s| <= 15
    ensures forall i :: 0 <= i < |s| ==> IsDigit(s[i]) || s[i] == '.'
  {
    OctetDigits(Octet(ip, 0));
    OctetDigits(Octet(ip, 1));
    OctetDigits(Octet(ip, 2));
    OctetDigits(Octet(ip, 3));
    DotJoin(NatToString(Octet(ip, 0)),
      DotJoin(NatToString(Octet(ip, 1)),
        DotJoin(NatToString(Octet(ip, 2)), NatToString(Octet(ip, 3)))))
  }

  /** An octet prints as one to three digits. */
  lemma OctetDigits(o: nat)
    requires o < 256
    ensures 1 <= |NatToString(o)| <= 3
  {
    if o >= 10 {
      assert NatToString(o) == NatToString(o / 10) + [DigitChar(o % 10)];
      if o / 10 >= 10 {
        assert NatToString(o / 10) == NatToString(o / 100) + [DigitChar((o / 10) % 10)];
      }
    }
  }

  /** The four octets, lowest first, put back together give `ip` modulo 2^32. */
  lemma OctetsReassemble(ip: Int32)
    ensures Octet(ip, 0) + 0x100 * Octet(ip, 1) + 0x1_0000 * Octet(ip, 2) + 0x100_0000 * Octet(ip, 3)
            == ip % 0x1_0000_0000
  {
    var s1, s2, s3 := ShiftBytes(ip, 1), ShiftBytes(ip, 2), ShiftBytes(ip, 3);
    var s4 := s3 / 256;
    assert ip == 256 * s1 + Octet(ip, 0);
    assert s1 == 256 * s2 + Octet(ip, 1);
    assert s2 == 256 * s3 + Octet(ip, 2);
    assert s3 == 256 * s4 + Octet(ip, 3);
    var low := Octet(ip, 0) + 0x100 * Octet(ip, 1) + 0x1_0000 * Octet(ip, 2) + 0x100_0000 * Octet(ip, 3);
    assert ip == 0x1_0000_0000 * s4 + low;
    ModUnique(ip, s4, low);
  }

  lemma ModUnique(x: int, q: int, r: int)
    requires 0 <= r < 0x1_0000_0000 && x == 0x1_0000_0000 * q + r
    ensures x % 0x1_0000_0000 == r
  {
    var q' := x / 0x1_0000_0000;
    var r' := x % 0x1_0000_0000;
    assert x == 0x1_0000_0000 * q' + r';
  }

  /** In a digit string followed by a dot, the first dot is right after the digits. */
  lemma FirstDot(a: string, b: string)
    requires AllDigits(a)
    ensures DotJoin(a, b)[|a|] == '.'
    ensures forall i :: 0 <= i < |a| ==> DotJoin(a, b)[i] != '.'
  {
    assert forall i :: 0 <= i < |a| ==> DotJoin(a, b)[i] == a[i];
  }

  /** Digit strings are split at the first dot, so a dotted pair splits back uniquely. */
  lemma DotSplit(a: string, b: string, c: string, d: string)
    requires AllDigits(a) && AllDigits(c)
    ensures DotJoin(a, b) == DotJoin(c, d) <==> a == c && b == d
  {
    var s, t := DotJoin(a, b), DotJoin(c, d);
    if s == t {
      FirstDot(a, b);
      FirstDot(c, d);
      assert |a| == |c|;
      assert a == s[..|a|] && c == t[..|c|];
      assert b == s[|a| + 1..] && d == t[|c| + 1..];
    }
  }

  /**
   * Reading the address back: a split of the text into three digit fields and a rest,
   * joined by dots, is exactly the printed octets, and each field's decimal value is
   * its octet, lowest byte first.
   */
  lemma FormatIpFields(ip: Int32, a: string, b: string, c: string, d: string)
    requires AllDigits(a) && AllDigits(b) && AllDigits(c)
    ensures FormatIp(ip) == DotJoin(a, DotJoin(b, DotJoin(c, d))) <==>
      && a == NatToString(Octet(ip, 0)) && b == NatToString(Octet(ip, 1))
      && c == NatToString(Octet(ip, 2)) && d == NatToString(Octet(ip, 3))
    ensures FormatIp(ip) == DotJoin(a, DotJoin(b, DotJoin(c, d))) ==>
      && AllDigits(d) && a != [] && b != [] && c != [] && d != []
      && DigitsValue(a) == Octet(ip, 0) && DigitsValue(b) == Octet(ip, 1)
      && DigitsValue(c) == Octet(ip, 2) && DigitsValue(d) == Octet(ip, 3)
  {
    var f0, f1, f2, f3 := NatToString(Octet(ip, 0)), NatToString(Octet(ip, 1)), NatToString(Octet(ip, 2)), NatToString(Octet(ip, 3));
    DotSplit(a, DotJoin(b, DotJoin(c, d)), f0, DotJoin(f1, DotJoin(f2, f3)));
    DotSplit(b, DotJoin(c, d), f1, DotJoin(f2, f3));
    DotSplit(c, d, f2, f3);
    NatToStringValue(Octet(ip, 0));
    NatToStringValue(Octet(ip, 1));
    NatToStringValue(Octet(ip, 2));
    NatToStringValue(Octet(ip, 3));
  }

  lemma NatToStringInjective(m: nat, n: nat)
    ensures NatToString(m) == NatToString(n) <==> m == n
  {
    NatToStringValue(m);
    NatToStringValue(n);
  }

  /** Different addresses are shown differently: the text determines the `int`. */
  lemma FormatIpInjective(a: Int32, b: Int32)
    ensures FormatIp(a) == FormatIp(b) <==> a == b
  {
    if FormatIp(a) == FormatIp(b) {
      var a0, a1, a2, a3 := NatToString(Octet(a, 0)), NatToString(Octet(a, 1)), NatToString(Octet(a, 2)), NatToString(Octet(a, 3));
      var b0, b1, b2, b3 := NatToString(Octet(b, 0)), NatToString(Octet(b, 1)), NatToString(Octet(b, 2)), NatToString(Octet(b, 3));
      DotSplit(a0, DotJoin(a1, DotJoin(a2, a3)), b0, DotJoin(b1, DotJoin(b2, b3)));
      DotSplit(a1, DotJoin(a2, a3), b1, DotJoin(b2, b3));
      DotSplit(a2, a3, b2, b3);
      NatToStringInjective(Octet(a, 0), Octet(b, 0));
      NatToStringInjective(Octet(a, 1), Octet(b, 1));
      NatToStringInjective(Octet(a, 2), Octet(b, 2));
      NatToStringInjective(Octet(a, 3), Octet(b, 3));
      OctetsReassemble(a);
      OctetsReassemble(b);
      SameResidue(a, b);
    }
  }

  lemma SameResidue(a: Int32, b: Int32)
    requires a % 0x1_0000_0000 == b % 0x1_0000_0000
    ensures a == b
  {
    var qa, qb := a / 0x1_0000_0000, b / 0x1_0000_0000;
    assert a == 0x1_0000_0000 * qa + a % 0x1_0000_0000;
    assert b == 0x1_0000_0000 * qb + b % 0x1_0000_0000;
    assert -1 <= qa <= 0 && -1 <= qb <= 0;
    if a < 0 { assert qa == -1; } else { assert qa == 0; }
    if b < 0 { assert qb == -1; } else { assert qb == 0; }
  }

  // ---------------------------------------------------------------------------------------
  // The key file
  // ---------------------------------------------------------------------------------------

  const OPENSSH_HEADER: string := "BEGIN OPENSSH PRIVATE KEY"
  const ENCRYPTED: string := "ENCRYPTED"
  const BEGIN: string := "BEGIN"
  const PRIVATE_KEY: string := "PRIVATE KEY"

  /** What the import reports about a key file. */
  datatype KeyCheck = EmptyKeyFile | UnsupportedOpenSsh | EncryptedKey | InvalidFormat | KeyAccepted

  /** The first line `readLine()` returns, or null. */
  function FirstLine(text: string): (first: Option<string>)
    ensures first.None? <==> text == []
    ensures first.Some? ==> NoTerminator(first.value) && first.value <= text
    ensures first.Some? ==> first.value == text[..LineEnd(text)]
  {
    var lines := ReadLines(text);
    if lines == [] then None else Some(lines[0])
  }

  /** The checks on the first line, in the order the import makes them. */
  function CheckFirstLine(first: Option<string>): (k: KeyCheck)
    ensures k == EmptyKeyFile <==> first.None? || first.value == []
    ensures k == UnsupportedOpenSsh <==> first.Some? && Contains(first.value, OPENSSH_HEADER)
    ensures k == EncryptedKey <==>
      first.Some? && first.value != [] && !Contains(first.value, OPENSSH_HEADER)
      && Contains(first.value, ENCRYPTED)
    ensures k == InvalidFormat <==>
      first.Some? && first.value != [] && !Contains(first.value, OPENSSH_HEADER)
      && !Contains(first.value, ENCRYPTED)
      && (!Contains(first.value, BEGIN) || !Contains(first.value, PRIVATE_KEY))
  {
    match first
    case None => EmptyKeyFile
    case Some(line) =>
      if line == [] then EmptyKeyFile
      else if Contains(line, OPENSSH_HEADER) then UnsupportedOpenSsh
      else if Contains(line, ENCRYPTED) then EncryptedKey
      else if !Contains(line, BEGIN) || !Contains(line, PRIVATE_KEY) then InvalidFormat
      else KeyAccepted
  }

  /**
   * An OpenSSH header contains both "BEGIN" and "PRIVATE KEY", so without its own check it
   * would pass the last one: that check has to come first.
   */
  lemma OpenSshHeaderLooksValid(line: string)
    requires Contains(line, OPENSSH_HEADER)
    ensures Contains(line, BEGIN) && Contains(line, PRIVATE_KEY)
  {
    assert OPENSSH_HEADER[..5] == BEGIN;
    assert OccursAt(OPENSSH_HEADER, BEGIN, 0);
    ContainsPart(line, OPENSSH_HEADER, BEGIN, 0);
    assert OPENSSH_HEADER[14..25] == PRIVATE_KEY;
    assert OccursAt(OPENSSH_HEADER, PRIVATE_KEY, 14);
    ContainsPart(line, OPENSSH_HEADER, PRIVATE_KEY, 14);
  }

  /**
   * A key is accepted exactly when its first line is there, is not empty, names neither the
   * OpenSSH format nor encryption, and contains "BEGIN" and "PRIVATE KEY"; an OpenSSH header
   * is reported as such even when it also says "ENCRYPTED".
   */
  lemma KeyAcceptedExactly(first: Option<string>)
    ensures CheckFirstLine(first) == KeyAccepted <==>
      first.Some? && first.value != [] && !Contains(first.value, OPENSSH_HEADER)
      && !Contains(first.value, ENCRYPTED)
      && Contains(first.value, BEGIN) && Contains(first.value, PRIVATE_KEY)
    ensures first.Some? && Contains(first.value, OPENSSH_HEADER) ==> CheckFirstLine(first) == UnsupportedOpenSsh
    ensures first.Some? && first.value != [] && Contains(first.value, ENCRYPTED) ==>
      CheckFirstLine(first) in {UnsupportedOpenSsh, EncryptedKey}
  {
    if first.Some? && Contains(first.value, OPENSSH_HEADER) {
      OpenSshHeaderLooksValid(first.value);
      assert first.value != [];
    }
  }

  /**
   * The key text stored is every line followed by "\n"; reading it again gives the same
   * lines, so the stored key has the same first line and passes the same checks.
   */
  lemma StoredKeyRereads(text: string)
    ensures ReadLines(JoinTerminated(ReadLines(text))) == ReadLines(text)
    ensures FirstLine(JoinTerminated(ReadLines(text))) == FirstLine(text)
  {
    ReadLinesHaveNoTerminator(text);
    ReadLinesJoinTerminated(ReadLines(text));
  }

  /** One `readLine` call moves one line from the unread input to the lines read. */
  lemma ReadStep(text: string, read: seq<string>, rest: string, line: string, next: string)
    requires read + ReadLines(rest) == ReadLines(text)
    requires ReadLine(rest) == Some(ReadResult(line, next))
    ensures (read + [line]) + ReadLines(next) == ReadLines(text)
  {
    assert ReadLines(rest) == [line] + ReadLines(next);
    assert (read + [line]) + ReadLines(next) == read + ([line] + ReadLines(next));
  }

  /** The read loop of the import: remember the first line, append each line and "\n". */
  method ReadKeyFile(text: string) returns (firstLine: Option<string>, keyContent: string)
    ensures firstLine == FirstLine(text)
    ensures keyContent == JoinTerminated(ReadLines(text))
  {
    firstLine := None;
    keyContent := [];
    var rest := text;
    ghost var read: seq<string> := [];
    while true
      invariant read + ReadLines(rest) == ReadLines(text)
      invariant keyContent == JoinTerminated(read)
      invariant firstLine == (if read == [] then None else Some(read[0]))
      decreases |rest|
    {
      var next := ReadLine(rest);
      if next.None? {
        break;
      }
      var line := next.value.line;
      if firstLine.None? {
        firstLine := Some(line);
      }
      JoinTerminatedAppend(read, line);
      ReadStep(text, read, rest, line, next.value.rest);
      keyContent := keyContent + line + "\n";
      read := read + [line];
      rest := next.value.rest;
    }
    assert read == ReadLines(text);
  }

  // ---------------------------------------------------------------------------------------
  // Sending the clipboard
  // ---------------------------------------------------------------------------------------

  /** What the send button leads to: a refusal, or a transfer of this text to this destination. */
  datatype SendDecision =
    | ClipboardEmpty
    | SelectDestination
    | StartTransfer(destination: Destination, keyPath: string, text: string)

  /** The guards of `sendClipboardToLinux`: the clipboard first, then the selected index. */
  function SendGuard(clipboard: Option<string>, destinations: seq<Destination>, selected: Int32,
                     keyPath: string): (d: SendDecision)
    ensures d.StartTransfer? ==>
      && 0 <= selected < |destinations| && d.destination == destinations[selected]
      && clipboard == Some(d.text) && d.text != [] && d.keyPath == keyPath
    ensures d == ClipboardEmpty <==> clipboard.None? || clipboard.value == []
    ensures d == SelectDestination <==>
      clipboard.Some? && clipboard.value != [] && !(0 <= selected < |destinations|)
  {
    if clipboard.None? || clipboard.value == [] then ClipboardEmpty
    else if selected < 0 || selected >= |destinations| then SelectDestination
    else StartTransfer(destinations[selected], keyPath, clipboard.value)
  }

  /**
   * A transfer starts exactly when the clipboard holds non-empty text and the selected index
   * is within the list; it sends that text to that entry. An empty clipboard is reported as
   * such whatever the destinations are.
   */
  lemma SendGuardExactly(clipboard: Option<string>, destinations: seq<Destination>, selected: Int32,
                         keyPath: string)
    ensures var d := SendGuard(clipboard, destinations, selected, keyPath);
      (d.StartTransfer? <==> clipboard.Some? && clipboard.value != [] && 0 <= selected < |destinations|)
      && (d.StartTransfer? ==>
            d.destination == destinations[selected] && d.text == clipboard.value && d.keyPath == keyPath)
      && (clipboard.None? || clipboard.value == [] ==> d == ClipboardEmpty)
  {
  }

  // ---------------------------------------------------------------------------------------
  // The activity
  // ---------------------------------------------------------------------------------------

  /** Adding the next button keeps every button labelled by its destination. */
  lemma LabelAppended(labels: seq<string>, stored: seq<Destination>, next: string)
    requires |labels| < |stored| && next == Label(stored[|labels|])
    requires forall k :: 0 <= k < |labels| ==> labels[k] == Label(stored[k])
    ensures forall k :: 0 <= k <= |labels| ==> (labels + [next])[k] == Label(stored[k])
  {
  }

  const STATUS_RUNNING: string := "Server Status: Running"
  const STATUS_STOPPED: string := "Server Status: Stopped"
  /** The key file's name inside the app's private directory. */
  const KEY_FILE_NAME: string := "/id_rsa"

  class MainActivity {
    const settings: SettingsManager
    /** `getFilesDir()`. */
    const filesDir: string
    var serverRunning: bool
    var bound: bool
    var lastReceivedText: string
    var statusText: string
    var startEnabled: bool
    var stopEnabled: bool
    var copyEnabled: bool
    var sendEnabled: bool
    /** The text of the system clipboard's primary clip, if there is one. */
    var clipboard: Option<string>
    /** The bytes of the private key file, once one was written. */
    var keyFile: Option<seq<Utf8.byte>>
    /** The labels of the destination radio buttons, in list order; a button's id is its position. */
    var radioLabels: seq<string>
    /** The id of the checked radio button, or -1 when none is checked. */
    var checkedRadio: int

    predicate Valid()
      reads settings
    {
      settings.Valid()
    }

    /** The start button is enabled exactly when the server is stopped, the stop button the other way round. */
    predicate ButtonsAgree()
      reads this`startEnabled, this`stopEnabled, this`serverRunning, this`statusText
    {
      startEnabled == !serverRunning && stopEnabled == serverRunning
      && statusText == (if serverRunning then STATUS_RUNNING else STATUS_STOPPED)
    }

    /** `onCreate`: nothing running, nothing received, buttons set from the stored settings. */
    constructor (settings: SettingsManager, filesDir: string, clipboard: Option<string>,
                 keyFile: Option<seq<Utf8.byte>>)
      requires settings.Valid()
      ensures Valid() && ButtonsAgree() && this.settings == settings && this.filesDir == filesDir
      ensures !serverRunning && !bound && lastReceivedText == [] && !copyEnabled
      ensures this.clipboard == clipboard && this.keyFile == keyFile
      ensures sendEnabled == (settings.HasSshKey() && settings.Destinations() != [])
      ensures RadiosShow(settings.Destinations(), settings.GetSelectedIndex())
    {
      this.settings := settings;
      this.filesDir := filesDir;
      serverRunning := false;
      bound := false;
      lastReceivedText := [];
      statusText := STATUS_STOPPED;
      startEnabled := true;
      stopEnabled := false;
      copyEnabled := false;
      sendEnabled := false;
      this.clipboard := clipboard;
      this.keyFile := keyFile;
      radioLabels := [];
      checkedRadio := -1;
      new;
      UpdateUi();
      LoadDestinations();
      UpdateSendButtonState();
    }

    /** Show the server state: status text and which of start and stop is enabled. */
    method UpdateUi()
      modifies this`statusText, this`startEnabled, this`stopEnabled
      ensures ButtonsAgree()
    {
      if serverRunning {
        statusText := STATUS_RUNNING;
        startEnabled := false;
        stopEnabled := true;
      } else {
        statusText := STATUS_STOPPED;
        startEnabled := true;
        stopEnabled := false;
      }
    }

    /** Start (and bind) the service, then mark the server running. */
    method StartServer()
      modifies this`serverRunning, this`statusText, this`startEnabled, this`stopEnabled
      ensures serverRunning && ButtonsAgree() && !startEnabled && stopEnabled
    {
      serverRunning := true;
      UpdateUi();
    }

    /** Unbind if bound, stop the service, then mark the server stopped. */
    method StopServer()
      modifies this`serverRunning, this`bound, this`statusText, this`startEnabled, this`stopEnabled
      ensures !serverRunning && !bound && ButtonsAgree() && startEnabled && !stopEnabled
    {
      if bound {
        bound := false;
      }
      serverRunning := false;
      UpdateUi();
    }

    /**
     * The radio group shows one button per stored destination, labelled as the destination
     * prints itself, and the stored selection is checked when it is a position in the list.
     */
    predicate RadiosShow(destinations: seq<Destination>, selected: Int32)
      reads this`radioLabels, this`checkedRadio
    {
      |radioLabels| == |destinations|
      && (forall i :: 0 <= i < |destinations| ==> radioLabels[i] == Label(destinations[i]))
      && checkedRadio == (if 0 <= selected < |destinations| then selected as int else -1)
    }

    /** Rebuild the radio group from the stored destinations and the stored selection. */
    method LoadDestinations()
      requires Valid()
      modifies this`radioLabels, this`checkedRadio
      ensures RadiosShow(settings.Destinations(), settings.GetSelectedIndex())
    {
      var destinations := settings.GetDestinations();
      var selectedIndex := settings.GetSelectedIndex();
      // `dest.toString()` of each object is the label of its field values
      var stored := Values(destinations);
      var labels: seq<string> := [];
      var checked := -1;
      var i := 0;
      while i < |stored|
        invariant 0 <= i <= |stored|
        invariant |labels| == i
        invariant forall k :: 0 <= k < i ==> labels[k] == Label(stored[k])
        invariant checked == (if 0 <= selectedIndex < i then selectedIndex as int else -1)
      {
        var buttonText := Label(stored[i]);
        LabelAppended(labels, stored, buttonText);
        labels := labels + [buttonText];
        if i == selectedIndex {
          checked := i;
        }
        i := i + 1;
      }
      radioLabels := labels;
      checkedRadio := checked;
    }

    /**
     * Checking a radio button moves the group's check to it, stores its id as the selection
     * and changes nothing else stored, so a group that showed the stored selection still does.
     */
    method OnDestinationChecked(checkedId: Int32)
      requires Valid()
      modifies settings, this`checkedRadio
      ensures Valid()
      ensures checkedRadio == checkedId as int && radioLabels == old(radioLabels)
      ensures settings.prefs == old(settings.prefs)[KEY_SELECTED_INDEX := IntValue(checkedId)]
      ensures settings.GetSelectedIndex() == checkedId
      ensures settings.Destinations() == old(settings.Destinations())
      ensures settings.HasSshKey() == old(settings.HasSshKey())
      ensures old(RadiosShow(settings.Destinations(), settings.GetSelectedIndex())) && 0 <= checkedId < |radioLabels|
        ==> RadiosShow(settings.Destinations(), settings.GetSelectedIndex())
    {
      // the radio group moves its check to the clicked button before it calls the listener
      checkedRadio := checkedId as int;
      SetSelectedIndexFrame(settings.prefs, checkedId);
      settings.SetSelectedIndex(checkedId);
    }

    /** The change listener of the destination manager: reload the radios and the send button. */
    method OnDestinationsChanged()
      requires Valid()
      modifies this`radioLabels, this`checkedRadio, this`sendEnabled
      ensures RadiosShow(settings.Destinations(), settings.GetSelectedIndex())
      ensures sendEnabled == (settings.HasSshKey() && settings.Destinations() != [])
    {
      LoadDestinations();
      UpdateSendButtonState();
    }

    /** `onDestroy`: unbind from the service if bound. */
    method OnDestroy()
      modifies this`bound
      ensures !bound
    {
      if bound {
        bound := false;
      }
    }

    /** The received-text listener: remember the text and enable copying. */
    method OnTextReceived(text: string)
      modifies this`lastReceivedText, this`copyEnabled
      ensures lastReceivedText == text && copyEnabled
    {
      lastReceivedText := text;
      copyEnabled := true;
    }

    /** Copy the last received text to the clipboard; refuse when there is none. */
    method CopyToClipboard() returns (copied: bool)
      modifies this`clipboard
      ensures copied <==> lastReceivedText != []
      ensures clipboard == if copied then Some(lastReceivedText) else old(clipboard)
    {
      if lastReceivedText == [] {
        return false;
      }
      clipboard := Some(lastReceivedText);
      copied := true;
    }

    /** Sending is enabled exactly when a key was imported and at least one destination is stored. */
    method UpdateSendButtonState()
      requires Valid()
      modifies this`sendEnabled
      ensures sendEnabled == (settings.HasSshKey() && settings.Destinations() != [])
    {
      var hasKey := settings.HasSshKey();
      var destinations := settings.GetDestinations();
      sendEnabled := hasKey && destinations != [];
    }

    /**
     * Import a key file whose text is `text`: it is stored, and the key flag set, only when
     * its first line passes every check.
     */
    method ImportSshKey(text: string) returns (outcome: KeyCheck)
      requires Valid()
      modifies this`keyFile, this`sendEnabled, settings
      ensures Valid() && outcome == CheckFirstLine(FirstLine(text))
      ensures outcome == KeyAccepted ==>
        keyFile == Some(Utf8.Encode(JoinTerminated(ReadLines(text))))
        && settings.prefs == old(settings.prefs)[KEY_HAS_SSH_KEY := BoolValue(true)]
        && settings.HasSshKey()
        && sendEnabled == (settings.Destinations() != [])
      ensures outcome != KeyAccepted ==>
        keyFile == old(keyFile) && settings.prefs == old(settings.prefs) && sendEnabled == old(sendEnabled)
    {
      var firstLine, keyContent := ReadKeyFile(text);
      outcome := CheckFirstLine(firstLine);
      if outcome != KeyAccepted {
        return;
      }
      keyFile := Some(Utf8.Encode(keyContent));
      settings.SetHasSshKey(true);
      UpdateSendButtonState();
    }

    /** The send button: check the clipboard, then the selected index, then start the transfer. */
    method SendClipboardToLinux() returns (decision: SendDecision)
      requires Valid()
      ensures decision == SendGuard(clipboard, settings.Destinations(), settings.GetSelectedIndex(),
                                    filesDir + KEY_FILE_NAME)
    {
      if clipboard.None? {
        return ClipboardEmpty;
      }
      var clipboardText := clipboard.value;
      if clipboardText == [] {
        return ClipboardEmpty;
      }
      var destinations := settings.GetDestinations();
      var selectedIndex := settings.GetSelectedIndex();
      if selectedIndex < 0 || selectedIndex >= |destinations| {
        return SelectDestination;
      }
      var destination := destinations[selectedIndex];
      decision := StartTransfer(destination.Value(), filesDir + KEY_FILE_NAME, clipboardText);
    }
  }
}
