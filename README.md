# paste-to-Android, modelled in Dafny

paste-to-Android is a small Android app with two directions of transfer:

- **Linux to phone.** A foreground service runs an HTTP server on port 8080. A `POST` to `/paste` hands the request body to a listener, and the main screen shows the text and can copy it to the clipboard.
- **Phone to Linux.** The user stores SSH destinations and imports a PEM private key. The app can then upload the clipboard over SFTP as a time-stamped file into a destination's directory.

This project models the app's own logic around the HTTP and SSH libraries, one module per Java class of the core:

| module | Java class | form |
|---|---|---|
| `PasteServer` | `HttpServerService` | The request handler is a method with a `readLine` loop, specified by a pure description of the exchange. The static `instance` field is a small class. |
| `DestinationForm` | `DestinationDialog` | Pure functions: pre-fill, title and the Save checks. |
| `Activity` | `MainActivity` | Pure IP formatting, first-line key classification and send guard. A class for the screen's state: server flags, received text, button states, radio buttons, clipboard and key file. A loop method for the key-file read. |
| `SshTransfer` | `SSHClientHelper` | An imperative method over nullable `Session` and `ChannelSftp` objects, driven by a fault plan. It is proved equal to a pure trace specification. |
| `DestinationList` | `ManageDestinationsDialog` | The adapter as a class whose list of destination objects is changed in place. |
| `Settings` | `SettingsManager` | A class over a key/value store, with an encode/decode round trip for the destination list. |
| `Destinations` | `LinuxDestination` | A class with five mutable fields, and its `toString`. |

Helper modules model the Java library behaviour the app relies on:

- `JavaInt`: `Integer.parseInt`, `Integer.toString` and zero padding, described below.
- `JavaString`: `String.trim` (strips characters up to U+0020 at both ends) and `String.contains`.
- `LineReader`: `BufferedReader.readLine` on the unread input. It recognises `\n`, `\r` and `\r\n` as terminators, and a last line without a terminator still counts as a line.
- `Utf8`: `getBytes("UTF-8")`, with a decoder as its partner.
- `Json`: the JSON values that `SettingsManager` builds and reads.
- `Wrappers`: `Option`.

The `JavaInt` functions:

- `Integer.parseInt` accepts an optional sign and ASCII digits, and fails outside the 32-bit range.
- `Integer.toString` produces the shortest decimal form.
- Zero padding is what `SimpleDateFormat` does to numeric fields.

Outside effects become explicit:

- **Time.** The wall clock is a `DateTime` parameter.
- **Failures.** Every JSch/SFTP call that may throw is driven by a fault plan: a map from step number to the exception that step throws.
- **Callbacks.** The result callback may itself throw.
- **Android services.** The clipboard, the key file's bytes and `getFilesDir()` are fields or parameters.
- **Events.** What leaves the program (listener calls, HTTP headers and body, SFTP calls, callbacks) is returned as a sequence of events.

The request handler as written:

- has no request-size cap, no 413 response and no `Content-Length` handling;
- rebuilds the body line by line, so it drops every `\r` and `\n` rather than passing the bytes through. `PasteServer` models that rebuilding exactly, starting from the body already decoded to text.

## Model

| member | source | states |
|---|---|---|
| PasteServer.Exchange | app/src/main/java/com/paste/android/HttpServerService.java:70-100 | every request is answered with status 200 and ends with the response body closed; before the headers there are only listener calls |
| PasteServer.PostAcknowledged | app/src/main/java/com/paste/android/HttpServerService.java:71-92 | a request whose method is exactly "POST" is answered with status 200 and "Text received successfully" |
| PasteServer.OtherMethodGetsUsage | app/src/main/java/com/paste/android/HttpServerService.java:93-98 | every other method gets status 200 and the usage text, and no listener call appears in the exchange |
| PasteServer.LowerCasePostGetsUsage | app/src/main/java/com/paste/android/HttpServerService.java:71 | the method comparison is case-sensitive: "post" gets the usage response |
| PasteServer.ListenerCalledOnceBeforeHeaders | app/src/main/java/com/paste/android/HttpServerService.java:83-89 | the listener is called iff the method is POST and a listener is set; it is called at most once, before the response headers, with the body's text stripped of line terminators |
| PasteServer.UnterminatedBodyPassedThrough | app/src/main/java/com/paste/android/HttpServerService.java:72-84 | a body with no `\r` or `\n` reaches the listener unchanged |
| PasteServer.OkTextAscii | app/src/main/java/com/paste/android/HttpServerService.java:88 | the success text is pure ASCII |
| PasteServer.UsageTextAscii | app/src/main/java/com/paste/android/HttpServerService.java:94 | the usage text is pure ASCII |
| PasteServer.RespondLength | app/src/main/java/com/paste/android/HttpServerService.java:89-91 | for ASCII text, the declared length `response.length()` equals the number of bytes written |
| PasteServer.DeclaredLengthIsBytesWritten | app/src/main/java/com/paste/android/HttpServerService.java:88-98 | on both branches, the headers declare exactly the number of body bytes that follow |
| PasteServer.ReadBody | app/src/main/java/com/paste/android/HttpServerService.java:72-80 | the `readLine` loop yields the body with every line terminator removed |
| PasteServer.HttpServerService.Handle | app/src/main/java/com/paste/android/HttpServerService.java:70-100 | the events of one exchange are the pure `Exchange` description, whose properties are the lemmas above |
| PasteServer.HttpServerService.constructor | app/src/main/java/com/paste/android/HttpServerService.java:33 | a new service has no listener |
| PasteServer.ServiceRegistry.constructor | app/src/main/java/com/paste/android/HttpServerService.java:27 | initially there is no instance |
| PasteServer.ServiceRegistry.SetOnTextReceivedListener | app/src/main/java/com/paste/android/HttpServerService.java:35-39 | sets the listener of the current instance; with no instance nothing changes |
| PasteServer.ServiceRegistry.OnCreate | app/src/main/java/com/paste/android/HttpServerService.java:42-46 | the created service becomes the instance |
| PasteServer.ServiceRegistry.OnDestroy | app/src/main/java/com/paste/android/HttpServerService.java:104-110 | the instance is cleared |
| LineReader.ReadLine | app/src/main/java/com/paste/android/HttpServerService.java:76 | `readLine` returns null exactly on exhausted input; the line is the input up to the first '\n' or '\r' (without it); the rest starts after that terminator, after both characters of "\r\n", and is empty when there is no terminator |
| LineReader.ReadLines | app/src/main/java/com/paste/android/HttpServerService.java:76-78 | `readLine` yields no line at all iff the input is empty, and at most one line per character |
| LineReader.Strip | app/src/main/java/com/paste/android/HttpServerService.java:76-80 | the appended text holds no line terminator and is no longer than the body |
| LineReader.ReadLineStrip | app/src/main/java/com/paste/android/HttpServerService.java:76-77 | one line plus the stripped remainder is the stripped input |
| LineReader.ConcatReadLines | app/src/main/java/com/paste/android/HttpServerService.java:76-80 | the concatenation of all lines read is the input with all `\r`/`\n` removed |
| LineReader.ConcatReadLinesNoTerminator | app/src/main/java/com/paste/android/HttpServerService.java:76-80 | input without terminators is reproduced exactly |
| LineReader.StripAppend | app/src/main/java/com/paste/android/HttpServerService.java:77 | stripping distributes over concatenation |
| LineReader.ReadTerminatedLine | app/src/main/java/com/paste/android/MainActivity.java:223-227 | a line followed by "\n" is read back as that line, leaving the rest |
| LineReader.ReadLinesJoinTerminated | app/src/main/java/com/paste/android/MainActivity.java:223-228 | lines without terminators, each joined with "\n", read back as the same lines |
| LineReader.ReadLinesHaveNoTerminator | app/src/main/java/com/paste/android/MainActivity.java:223 | no line returned by `readLine` contains a terminator |
| LineReader.JoinTerminatedAppend | app/src/main/java/com/paste/android/MainActivity.java:227 | appending a line and "\n" extends the joined text by exactly that |
| DestinationForm.Prefill | app/src/main/java/com/paste/android/DestinationDialog.java:34-42 | in edit mode the fields hold the destination's values, and the port text is already trimmed and parses back to the port; in add mode the text fields start empty and the port field holds "22" |
| DestinationForm.OnSave | app/src/main/java/com/paste/android/DestinationDialog.java:47-72 | a save succeeds iff every trimmed field is filled and the trimmed port parses to a value in 1..65535, which is the port saved; a rejection carries one of the two messages |
| DestinationForm.Title | app/src/main/java/com/paste/android/DestinationDialog.java:45 | the title is "Add Destination" iff there is no existing destination, "Edit Destination" iff there is |
| DestinationForm.ParsePort | app/src/main/java/com/paste/android/DestinationDialog.java:59-68 | a port is accepted iff `parseInt` succeeds and the value is in 1..65535, and then it is the value `parseInt` gives |
| DestinationForm.RequiredFieldsFirst | app/src/main/java/com/paste/android/DestinationDialog.java:48-57 | the save is rejected with "All fields are required" iff some trimmed field is empty, whatever the port text is |
| DestinationForm.InvalidPortRejected | app/src/main/java/com/paste/android/DestinationDialog.java:59-68 | with all fields filled, the save is rejected with "Invalid port number" iff the trimmed port is not an `int` or is outside 1..65535 |
| DestinationForm.SavedDestination | app/src/main/java/com/paste/android/DestinationDialog.java:48-71 | an accepted destination holds the trimmed fields and the parsed port, and is non-empty, trimmed and in range |
| DestinationForm.PortTextTrimmed | app/src/main/java/com/paste/android/DestinationDialog.java:38 | the pre-filled port text has nothing `trim` would remove |
| DestinationForm.EditWithoutChangesSavesSame | app/src/main/java/com/paste/android/DestinationDialog.java:34-71 | saving an unchanged edit form of a valid destination returns that destination |
| DestinationForm.ResaveIsIdentity | app/src/main/java/com/paste/android/DestinationDialog.java:34-71 | whatever is saved once is saved identically when re-opened and saved again |
| DestinationForm.DefaultPortAccepted | app/src/main/java/com/paste/android/DestinationDialog.java:40-42 | the add form's default port "22" is accepted as 22 |
| DestinationForm.PortBoundariesRejected | app/src/main/java/com/paste/android/DestinationDialog.java:62-63 | ports 0 and 70000 are refused |
| DestinationForm.PortBoundariesAccepted | app/src/main/java/com/paste/android/DestinationDialog.java:62 | ports 1 and 65535 are accepted |
| JavaInt.ParseInt | app/src/main/java/com/paste/android/DestinationDialog.java:61 | text is accepted iff it is an optional '-' or '+' followed by at least one ASCII digit and its signed value is within the `int` range; the result is that signed value |
| JavaInt.NatToString | app/src/main/java/com/paste/android/DestinationDialog.java:38 | a non-negative number prints as a non-empty digit string, one digit iff below 10 |
| JavaInt.NatToStringValue | app/src/main/java/com/paste/android/DestinationDialog.java:38 | the printed digits denote the number |
| JavaInt.ParseIntToString | app/src/main/java/com/paste/android/DestinationDialog.java:38-61 | `parseInt` of `String.valueOf(i)` gives back `i` for every `int` |
| JavaInt.PadValue | app/src/main/java/com/paste/android/SSHClientHelper.java:36 | a zero-padded field denotes its number |
| JavaInt.PadLength | app/src/main/java/com/paste/android/SSHClientHelper.java:36 | a number below 10^width pads to exactly `width` digits |
| JavaInt.PadInjective | app/src/main/java/com/paste/android/SSHClientHelper.java:36 | equal padded fields come from equal numbers, and conversely |
| JavaString.Trim | app/src/main/java/com/paste/android/DestinationDialog.java:48-52 | the result is no longer than the text and neither starts nor ends with a character up to U+0020 |
| JavaString.TrimStart | app/src/main/java/com/paste/android/DestinationDialog.java:48-52 | removes exactly the leading characters up to U+0020, leaving a suffix |
| JavaString.TrimEnd | app/src/main/java/com/paste/android/DestinationDialog.java:48-52 | removes exactly the trailing characters up to U+0020, leaving a prefix |
| JavaString.TrimSpec | app/src/main/java/com/paste/android/DestinationDialog.java:48-52 | `trim` returns the slice between the stripped ends, which start and end with a kept character |
| JavaString.TrimUnchanged | app/src/main/java/com/paste/android/DestinationDialog.java:48-52 | text with no strippable end character is returned unchanged |
| JavaString.TrimIdempotent | app/src/main/java/com/paste/android/DestinationDialog.java:48-52 | trimming twice equals trimming once |
| JavaString.ContainsPart | app/src/main/java/com/paste/android/MainActivity.java:237-259 | text containing a string also contains each of that string's parts |
| Destinations.LinuxDestination.constructor | app/src/main/java/com/paste/android/LinuxDestination.java:10-16 | every getter returns its constructor argument; any `int` port is accepted |
| Destinations.LinuxDestination.SetName | app/src/main/java/com/paste/android/LinuxDestination.java:22-24 | changes the name and no other field |
| Destinations.LinuxDestination.SetUser | app/src/main/java/com/paste/android/LinuxDestination.java:30-32 | changes the user and no other field |
| Destinations.LinuxDestination.SetHost | app/src/main/java/com/paste/android/LinuxDestination.java:38-40 | changes the host and no other field |
| Destinations.LinuxDestination.SetPort | app/src/main/java/com/paste/android/LinuxDestination.java:46-48 | changes the port and no other field |
| Destinations.LinuxDestination.SetDirectory | app/src/main/java/com/paste/android/LinuxDestination.java:54-56 | changes the directory and no other field |
| Destinations.Values | app/src/main/java/com/paste/android/LinuxDestination.java:18-52 | the field values of a list of objects, position by position |
| Destinations.Label | app/src/main/java/com/paste/android/LinuxDestination.java:58-61 | the label starts with the name and ends with ")" |
| Destinations.LabelPort | app/src/main/java/com/paste/android/LinuxDestination.java:58-61 | the label ends with ")", and the text between its last ':' and that ')' parses back to the port, whatever the other fields hold |
| Settings.EncodeDestination | app/src/main/java/com/paste/android/SettingsManager.java:51-56 | one destination is saved as an object of five members with distinct names |
| Settings.EncodeDestinations | app/src/main/java/com/paste/android/SettingsManager.java:47-58 | the saved array has one object per destination, in list order |
| Settings.DecodeDestination | app/src/main/java/com/paste/android/SettingsManager.java:30-37 | an entry decodes iff it is an object whose five getters all succeed, and the destination holds what they read |
| Settings.DecodeEntries | app/src/main/java/com/paste/android/SettingsManager.java:27-41 | the entries decoded are, in order, the leading entries that decode, and decoding stops at the first entry that does not |
| Settings.DecodeDestinations | app/src/main/java/com/paste/android/SettingsManager.java:23-43 | text that is not an array gives no destinations; an array gives its decodable leading entries, in order |
| Settings.EncodedName | app/src/main/java/com/paste/android/SettingsManager.java:32-52 | the "name" member reads back as the name |
| Settings.EncodedUser | app/src/main/java/com/paste/android/SettingsManager.java:33-53 | the "user" member reads back as the user |
| Settings.EncodedHost | app/src/main/java/com/paste/android/SettingsManager.java:34-54 | the "host" member reads back as the host |
| Settings.EncodedPort | app/src/main/java/com/paste/android/SettingsManager.java:35-55 | the "port" member reads back as the port |
| Settings.EncodedDirectory | app/src/main/java/com/paste/android/SettingsManager.java:36-56 | the "directory" member reads back as the directory |
| Settings.DecodeEncodeDestination | app/src/main/java/com/paste/android/SettingsManager.java:30-56 | one encoded destination decodes to itself |
| Settings.DecodeEncode | app/src/main/java/com/paste/android/SettingsManager.java:29-58 | a saved list reads back as the same destinations in the same order |
| Settings.DecodeStopsAtFailure | app/src/main/java/com/paste/android/SettingsManager.java:27-43 | when entry i fails to decode, exactly the first i entries are returned |
| Settings.DecodeEntriesAt | app/src/main/java/com/paste/android/SettingsManager.java:29-38 | decoding from entry i either stops there or yields entry i followed by the rest |
| Settings.NothingStored | app/src/main/java/com/paste/android/SettingsManager.java:23-76 | with nothing stored: no destinations, selected index 0, no key |
| Settings.SaveDestinationsFrame | app/src/main/java/com/paste/android/SettingsManager.java:63 | writing the destinations key changes what reads back as destinations and nothing else |
| Settings.SetSelectedIndexFrame | app/src/main/java/com/paste/android/SettingsManager.java:71 | writing the index key changes only the selected index |
| Settings.SetHasSshKeyFrame | app/src/main/java/com/paste/android/SettingsManager.java:79 | writing the key flag changes only the key flag |
| Settings.SettingsManager.constructor | app/src/main/java/com/paste/android/SettingsManager.java:19-21 | the manager wraps the stored preferences |
| Settings.SettingsManager.GetDestinations | app/src/main/java/com/paste/android/SettingsManager.java:23-44 | returns fresh, distinct objects whose values are the stored destinations |
| Settings.SettingsManager.SaveDestinations | app/src/main/java/com/paste/android/SettingsManager.java:46-64 | writes only the destinations key; the list then reads back as the values saved |
| Settings.SettingsManager.SetSelectedIndex | app/src/main/java/com/paste/android/SettingsManager.java:70-72 | writes only the index key, which then reads back as the index set |
| Settings.SettingsManager.SetHasSshKey | app/src/main/java/com/paste/android/SettingsManager.java:78-80 | writes only the key flag, which then reads back as the value set |
| DestinationList.RemoveFirst | app/src/main/java/com/paste/android/ManageDestinationsDialog.java:97 | the list gets one shorter iff the object is in it, and gains no object |
| DestinationList.IndexOf | app/src/main/java/com/paste/android/ManageDestinationsDialog.java:97 | the first position holding the object |
| DestinationList.RemoveFirstSpec | app/src/main/java/com/paste/android/ManageDestinationsDialog.java:97 | `remove` drops the first occurrence and keeps the others in order, or changes nothing when the object is absent |
| DestinationList.RemoveFirstDistinct | app/src/main/java/com/paste/android/ManageDestinationsDialog.java:97 | removal keeps the list free of repeated objects |
| DestinationList.Overwrite | app/src/main/java/com/paste/android/ManageDestinationsDialog.java:80-84 | after the five setters the object holds the edited values |
| DestinationList.DestinationAdapter.constructor | app/src/main/java/com/paste/android/ManageDestinationsDialog.java:54-59 | the adapter starts with the stored destinations as fresh objects |
| DestinationList.DestinationAdapter.GetAll | app/src/main/java/com/paste/android/ManageDestinationsDialog.java:110-116 | returns the items in index order, with length `getCount()` |
| DestinationList.DestinationAdapter.SaveAndNotify | app/src/main/java/com/paste/android/ManageDestinationsDialog.java:85-100 | saves exactly the current items and counts one change notification |
| DestinationList.DestinationAdapter.Add | app/src/main/java/com/paste/android/ManageDestinationsDialog.java:37-44 | appends one new object holding the destination, keeps the others, saves the whole list and notifies |
| DestinationList.DestinationAdapter.Edit | app/src/main/java/com/paste/android/ManageDestinationsDialog.java:78-90 | overwrites that one entry in place; the same objects stay in the list, then the list is saved and the listener notified |
| DestinationList.DestinationAdapter.Delete | app/src/main/java/com/paste/android/ManageDestinationsDialog.java:92-105 | removes that entry, keeps the rest in order, shortens the list by one, saves and notifies |
| Utf8.Encode | app/src/main/java/com/paste/android/SSHClientHelper.java:66 | the text encodes as one to four bytes per character |
| Utf8.EncodeChar | app/src/main/java/com/paste/android/SSHClientHelper.java:66 | a character encodes as 1 to 4 bytes, as 1 byte iff it is ASCII |
| Utf8.EncodeCharUnit | app/src/main/java/com/paste/android/SSHClientHelper.java:66 | the encoding of one character decodes back to it |
| Utf8.DecodeEncode | app/src/main/java/com/paste/android/SSHClientHelper.java:66 | UTF-8 decoding (shortest forms only) of the bytes gives the text back |
| Utf8.EncodeAscii | app/src/main/java/com/paste/android/HttpServerService.java:91-97 | ASCII text encodes as one byte per character, with the same code |
| Utf8.EncodeLength | app/src/main/java/com/paste/android/HttpServerService.java:89-91 | the encoding is never shorter than the text, and has the same length iff the text is ASCII |
| Utf8.OverlongRejected | app/src/main/java/com/paste/android/SSHClientHelper.java:66 | the decoder refuses the overlong form `C0 80` of U+0000 |
| Utf8.AsciiAppend | app/src/main/java/com/paste/android/HttpServerService.java:94 | concatenating ASCII texts gives ASCII text |
| SshTransfer.FileName | app/src/main/java/com/paste/android/SSHClientHelper.java:36-37 | the name begins with "clipboard_" and ends with ".txt", and has 29 characters for years 1..9999 |
| SshTransfer.DateFields | app/src/main/java/com/paste/android/SSHClientHelper.java:36 | the date part is 8 digits that read back as year, month and day |
| SshTransfer.TimeFields | app/src/main/java/com/paste/android/SSHClientHelper.java:36 | the time part is 6 digits that read back as hour, minute and second |
| SshTransfer.FileNameFields | app/src/main/java/com/paste/android/SSHClientHelper.java:36-37 | the file name is 29 characters: "clipboard_", the date, "_", the time and ".txt" |
| SshTransfer.FileNameInjective | app/src/main/java/com/paste/android/SSHClientHelper.java:36-37 | two moments give the same file name iff they are the same moment |
| SshTransfer.ErrorMessage | app/src/main/java/com/paste/android/SSHClientHelper.java:71-76 | the error text starts with the prefix of the exception's kind |
| SshTransfer.ErrorMessageDetermines | app/src/main/java/com/paste/android/SSHClientHelper.java:71-76 | two faults give the same error text iff they have the same kind and the same message text, null printing as "null" |
| SshTransfer.Step | app/src/main/java/com/paste/android/SSHClientHelper.java:41-67 | each of the nine steps is a library call, not a callback or cleanup |
| SshTransfer.StepsUpTo | app/src/main/java/com/paste/android/SSHClientHelper.java:41-67 | the first n steps in their fixed order |
| SshTransfer.FirstFaultFrom | app/src/main/java/com/paste/android/SSHClientHelper.java:41-67 | the first step at or after `from` that throws, and no earlier one |
| SshTransfer.Called | app/src/main/java/com/paste/android/SSHClientHelper.java:41-67 | the number of steps that run is at most nine |
| SshTransfer.Cleanup | app/src/main/java/com/paste/android/SSHClientHelper.java:77-84 | the `finally` block disconnects something iff the session connected, and then ends with the session; the channel is disconnected iff it connected, and before the session |
| SshTransfer.Transfer | app/src/main/java/com/paste/android/SSHClientHelper.java:34-84 | every transfer starts with `addIdentity`, makes 2 to 13 calls, and ends with a callback or a disconnect, never with a library step |
| SshTransfer.TransferSplit | app/src/main/java/com/paste/android/SSHClientHelper.java:34-84 | a transfer is the steps that ran followed by what comes after them |
| SshTransfer.AfterStepsShape | app/src/main/java/com/paste/android/SSHClientHelper.java:69-84 | after the steps there are no steps; success, if present, is first, and only when no step threw |
| SshTransfer.StepsInOrder | app/src/main/java/com/paste/android/SSHClientHelper.java:41-67 | the steps that run are exactly the first `Called` in order, and a failing step stops all later ones |
| SshTransfer.UploadIsClipboardText | app/src/main/java/com/paste/android/SSHClientHelper.java:66-67 | `put` sends the UTF-8 bytes of the clipboard text under the file name, and they decode back to the text |
| SshTransfer.SuccessOnlyAfterPut | app/src/main/java/com/paste/android/SSHClientHelper.java:67-69 | `onSuccess(filename)` occurs iff no step threw, and only directly after a `put` that returned |
| SshTransfer.ErrorReported | app/src/main/java/com/paste/android/SSHClientHelper.java:71-76 | the first failing step's exception is reported with its prefix; a throwing `onSuccess` is reported as "Error: " |
| SshTransfer.CallbackCount | app/src/main/java/com/paste/android/SSHClientHelper.java:69-76 | exactly one callback fires, or two when `onSuccess` itself throws |
| SshTransfer.CleanupOnEveryPath | app/src/main/java/com/paste/android/SSHClientHelper.java:77-84 | the channel, and the session, are disconnected iff they were connected; cleanup ends every trace |
| SshTransfer.Session.constructor | app/src/main/java/com/paste/android/SSHClientHelper.java:44 | a session holds user, host and port, and starts unconnected with default settings |
| SshTransfer.Session.SetStrictHostKeyChecking | app/src/main/java/com/paste/android/SSHClientHelper.java:47-51 | sets host-key checking only |
| SshTransfer.Session.SetTimeout | app/src/main/java/com/paste/android/SSHClientHelper.java:52 | sets the timeout only |
| SshTransfer.Session.Connect | app/src/main/java/com/paste/android/SSHClientHelper.java:55 | the session becomes connected |
| SshTransfer.Session.Disconnect | app/src/main/java/com/paste/android/SSHClientHelper.java:82 | the session becomes unconnected |
| SshTransfer.ChannelSftp.constructor | app/src/main/java/com/paste/android/SSHClientHelper.java:58 | a channel starts unconnected |
| SshTransfer.ChannelSftp.Connect | app/src/main/java/com/paste/android/SSHClientHelper.java:59 | the channel becomes connected |
| SshTransfer.ChannelSftp.Cd | app/src/main/java/com/paste/android/SSHClientHelper.java:63 | changes the directory only |
| SshTransfer.ChannelSftp.Disconnect | app/src/main/java/com/paste/android/SSHClientHelper.java:79 | the channel becomes unconnected |
| SshTransfer.StartSession | app/src/main/java/com/paste/android/SSHClientHelper.java:40-55 | steps 1 to 5 up to the first fault; the session exists iff `getSession` returned, and carries the destination's address, timeout 30000 and host-key checking "no" once connect was attempted |
| SshTransfer.Upload | app/src/main/java/com/paste/android/SSHClientHelper.java:58-67 | steps 6 to 9 up to the first fault; `channelSftp` is set iff the channel connected, and is in the destination's directory once `cd` returned |
| SshTransfer.SendClipboardToLinux | app/src/main/java/com/paste/android/SSHClientHelper.java:24-86 | the calls made are exactly the `Transfer` trace; afterwards neither the session nor the channel is connected; session settings as stated above |
| Activity.FormatIp | app/src/main/java/com/paste/android/MainActivity.java:149-153 | the address is 7 to 15 characters, each a digit or a dot |
| Activity.Octet | app/src/main/java/com/paste/android/MainActivity.java:149-153 | an octet is in 0..255 |
| Activity.OctetsReassemble | app/src/main/java/com/paste/android/MainActivity.java:149-153 | the four octets, lowest byte first, reassemble the address modulo 2^32 |
| Activity.DotSplit | app/src/main/java/com/paste/android/MainActivity.java:149 | dotted digit strings split back uniquely |
| Activity.FormatIpFields | app/src/main/java/com/paste/android/MainActivity.java:149-153 | the text splits at its dots into exactly the four octets' decimal forms, lowest byte first, and each field reads back as its octet |
| Activity.FormatIpInjective | app/src/main/java/com/paste/android/MainActivity.java:146-153 | two addresses are shown alike iff they are the same `int` |
| Activity.FirstLine | app/src/main/java/com/paste/android/MainActivity.java:221-226 | there is no first line iff the file is empty; the first line is the text up to its first line terminator |
| Activity.CheckFirstLine | app/src/main/java/com/paste/android/MainActivity.java:232-259 | each outcome iff its condition, in the source's order: empty iff there is no first line or it is empty; OpenSSH iff the line contains the OpenSSH header; encrypted iff a non-empty, non-OpenSSH line contains "ENCRYPTED"; invalid format iff such a line, without "ENCRYPTED", lacks "BEGIN" or "PRIVATE KEY" |
| Activity.OpenSshHeaderLooksValid | app/src/main/java/com/paste/android/MainActivity.java:237-259 | an OpenSSH header also passes the last check, so its own check must come first |
| Activity.KeyAcceptedExactly | app/src/main/java/com/paste/android/MainActivity.java:232-259 | a key is accepted iff its first line is present, non-empty, neither OpenSSH nor ENCRYPTED, and contains "BEGIN" and "PRIVATE KEY"; OpenSSH is reported before ENCRYPTED |
| Activity.StoredKeyRereads | app/src/main/java/com/paste/android/MainActivity.java:223-265 | the stored key text reads back as the same lines, so it has the same first line |
| Activity.ReadKeyFile | app/src/main/java/com/paste/android/MainActivity.java:221-229 | the loop keeps the first line read and every line followed by "\n" |
| Activity.SendGuard | app/src/main/java/com/paste/android/MainActivity.java:320-347 | "clipboard is empty" iff the clipboard holds no text or empty text; "select a destination" iff the text is non-empty and the index is outside the list; otherwise a transfer of that entry, that text and the key path |
| Activity.SendGuardExactly | app/src/main/java/com/paste/android/MainActivity.java:320-347 | a transfer starts iff the clipboard text is non-empty and the index is within the list, with that text and that entry; an empty clipboard is reported first |
| Activity.MainActivity.constructor | app/src/main/java/com/paste/android/MainActivity.java:67-106 | nothing running or received; buttons, radios and send state set from the stored settings |
| Activity.MainActivity.UpdateUi | app/src/main/java/com/paste/android/MainActivity.java:131-141 | start is enabled iff the server is stopped, stop iff it runs, and the status text says which |
| Activity.MainActivity.StartServer | app/src/main/java/com/paste/android/MainActivity.java:108-118 | the server is marked running, and the buttons agree |
| Activity.MainActivity.StopServer | app/src/main/java/com/paste/android/MainActivity.java:120-129 | the server is marked stopped and unbound, and the buttons agree |
| Activity.MainActivity.LoadDestinations | app/src/main/java/com/paste/android/MainActivity.java:289-309 | one radio per stored destination, labelled by its `toString`; the stored selection is checked iff it is a position in the list |
| Activity.MainActivity.OnDestinationChecked | app/src/main/java/com/paste/android/MainActivity.java:306-308 | checking a radio moves the group's check to it, stores its id as the selection and changes no other setting; radios that showed the stored selection still do |
| Activity.MainActivity.OnDestinationsChanged | app/src/main/java/com/paste/android/MainActivity.java:283-286 | after the destination manager changes the list, the radios and the send button follow the stored settings |
| Activity.MainActivity.OnDestroy | app/src/main/java/com/paste/android/MainActivity.java:190-197 | the activity is unbound afterwards |
| Activity.MainActivity.OnTextReceived | app/src/main/java/com/paste/android/MainActivity.java:162-166 | the received text is kept and copying is enabled |
| Activity.MainActivity.CopyToClipboard | app/src/main/java/com/paste/android/MainActivity.java:170-180 | copies iff there is received text; an empty text leaves the clipboard as it was |
| Activity.MainActivity.UpdateSendButtonState | app/src/main/java/com/paste/android/MainActivity.java:311-315 | send is enabled iff a key was imported and a destination is stored |
| Activity.MainActivity.ImportSshKey | app/src/main/java/com/paste/android/MainActivity.java:216-280 | the outcome is the first-line classification; on acceptance the key file holds the lines joined by "\n" as bytes, the key flag is set and only it, and send follows; otherwise nothing changes |
| Activity.MainActivity.SendClipboardToLinux | app/src/main/java/com/paste/android/MainActivity.java:317-366 | the decision is the send guard applied to the clipboard, the stored list, the stored index and the key path in the files directory |

## Left out

- Android UI and platform services are not modelled: views, toasts, dialogs, notifications, the foreground service start, WifiManager, `ActivityResult` and the content resolver. Views are reduced to the texts and enabled flags they show; toasts and dialogs are reduced to the outcome they report.
- The text `showIPAddress` puts on screen around the address is not modelled. Only the address formatting is.
- Activity.FormatIp: writes ASCII digits whatever the default locale. `String.format` is called without a locale, so on a device whose locale has its own digits (`fa` or `ar-EG`, for example) the address and the curl hint show non-ASCII digits.
- Server binding and threading are not modelled: the socket bind, the thread pool, the swallowed `IOException` and the SSH worker thread. The SFTP transfer is modelled as running to completion synchronously.
- Decoding of the request body is not modelled. `PasteServer` starts from the body as text. The handler decodes the bytes with `InputStreamReader` in the default charset, which turns malformed input into U+FFFD.
- An `IOException` thrown out of `handle` (HttpServerService.java:70) is not modelled. In the model, reading the body and writing the response never fail, so the listener call and the response are never skipped.
- The binder path is not modelled. `MainActivity` uses `HttpServerService.LocalBinder` and `service.setListener`, which the service class does not define, and `onBind` returns null. As a result `bound` is never set to true in the model, and received text reaches the activity only through `OnTextReceived`. The `onResume` re-registration is left out for the same reason.
- JSch internals are not modelled: handshake, authentication, host-key handling and the SFTP wire protocol. Each call is a step that either returns or throws, as the fault plan says.
- The `isConnected()` checks of the `finally` block are read as "its `connect` returned". The model assumes that a failing `cd` or `put`, or a dropped network, never closes the channel or the session by itself.
- JSON text is not modelled. The value stored under the destinations key is the JSON tree it denotes. `getString` accepts only a JSON string and `getInt` only an integer within `int` range; org.json's other coercions are left out.
- A preference holding a value of another type (a `ClassCastException`) is excluded by the store invariant, because only `SettingsManager` writes those keys.
- Key-file I/O, the file permission bits and I/O exceptions are not modelled. The key file is the text it holds, and the written file is a field holding its bytes. Android's default charset is UTF-8, so `getBytes()` is modelled as UTF-8.
- The `catch (Exception e)` of `importSSHKey` is not modelled, since every exception it could catch comes from the I/O that is left out.
- The wall clock and the default time zone are not modelled. The timestamp comes from a `DateTime` parameter.
- `SimpleDateFormat` is modelled only for years 1..9999. Wider years print with more digits and are not covered by the 29-character lemmas. Days run 1..31 in every month, so the file-name lemmas also cover dates the calendar does not have.
- `ClipData.Item.getText()` returning null for a non-text clip is not modelled. The clipboard is either empty or holds text.
- `Integer.parseInt` is modelled on ASCII digits only. Java also accepts other Unicode decimal digits.
- Strings are sequences of Unicode scalar values, so unpaired UTF-16 surrogates cannot occur.
- Activity.MainActivity.LoadDestinations: builds each radio label from the destination's field values through `Label`, the function that specifies `toString`, rather than by calling `toString` on the object.
- Activity.MainActivity.constructor: starts with copying disabled, because the layout's initial button states are not part of the model.
