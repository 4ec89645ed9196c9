/**
 * `DestinationDialog`: the add/edit form for a destination. The five text fields, the
 * pre-filling, the title and the checks the Save button runs before it hands a new
 * destination to its listener.
 */
module DestinationForm {
  import opened Wrappers
  import opened JavaInt
  import opened JavaString
  import opened Destinations

  const FIELDS_REQUIRED: string := "All fields are required"
  const INVALID_PORT: string := "Invalid port number"
  const DEFAULT_PORT: string := "22"
  const MIN_PORT: int := 1
  const MAX_PORT: int := 65535

  /** The contents of the five text fields, as typed. */
  datatype Form = Form(name: string, user: string, host: string, port: string, directory: string)

  /**
   * What pressing Save does: a toast with a message, or one call of the listener with the
   * new destination.
   */
  datatype SaveOutcome = Rejected(message: string) | Saved(destination: Destination)

  /** The title of the dialog. */
  function Title(existing: Option<Destination>): (t: string)
    ensures t == "Add Destination" <==> existing.None?
    ensures t == "Edit Destination" <==> existing.Some?
  {
    if existing.None? then "Add Destination" else "Edit Destination"
  }

  /**
   * The fields as the dialog opens: in edit mode the existing destination's values (the
   * port through `String.valueOf`); in add mode only the port, set to "22". The other
   * fields of the add form start empty.
   */
  function Prefill(existing: Option<Destination>): (f: Form)
    ensures existing.Some? ==> var d := existing.value;
      && f.name == d.name && f.user == d.user && f.host == d.host && f.directory == d.directory
      && Trim(f.port) == f.port && ParseInt(f.port) == Some(d.port)
    ensures existing.None? ==>
      f.name == [] && f.user == [] && f.host == [] && f.directory == [] && f.port == DEFAULT_PORT
  {
    match existing
    case None => Form("", "", "", DEFAULT_PORT, "")
    case Some(d) =>
      PortTextTrimmed(d.port);
      ParseIntToString(d.port);
      Form(d.name, d.user, d.host, IntToString(d.port), d.directory)
  }

  /** Every field is non-empty once trimmed. */
  predicate AllFilled(f: Form)
  {
    Trim(f.name) != [] && Trim(f.user) != [] && Trim(f.host) != []
    && Trim(f.port) != [] && Trim(f.directory) != []
  }

  /** `Integer.parseInt` followed by the range check; None where the dialog catches `NumberFormatException`. */
  function ParsePort(text: string): (r: Option<Int32>)
    ensures r.Some? ==> MIN_PORT <= r.value <= MAX_PORT && r == ParseInt(text)
    ensures r.Some? <==> ParseInt(text).Some? && MIN_PORT <= ParseInt(text).value <= MAX_PORT
  {
    match ParseInt(text)
    case None => None
    case Some(p) => if p < MIN_PORT || p > MAX_PORT then None else Some(p)
  }

  /** The Save handler: trim, require all fields, then require a port in 1..65535. */
  function OnSave(f: Form): (o: SaveOutcome)
    ensures o.Saved? <==> AllFilled(f) && ParsePort(Trim(f.port)).Some?
    ensures o.Saved? ==> o.destination.port == ParsePort(Trim(f.port)).value
    ensures o.Rejected? ==> o.message == FIELDS_REQUIRED || o.message == INVALID_PORT
  {
    var name, user, host, portText, directory :=
      Trim(f.name), Trim(f.user), Trim(f.host), Trim(f.port), Trim(f.directory);
    if name == [] || user == [] || host == [] || portText == [] || directory == [] then
      Rejected(FIELDS_REQUIRED)
    else
      match ParsePort(portText)
      case None => Rejected(INVALID_PORT)
      case Some(port) => Saved(Destination(name, user, host, port, directory))
  }

  /** A destination as the dialog can produce one: trimmed, non-empty text and a port in range. */
  predicate IsValidDestination(d: Destination)
  {
    && d.name != [] && Trim(d.name) == d.name
    && d.user != [] && Trim(d.user) == d.user
    && d.host != [] && Trim(d.host) == d.host
    && d.directory != [] && Trim(d.directory) == d.directory
    && MIN_PORT <= d.port <= MAX_PORT
  }

  /**
   * The empty-field check decides first: the save is rejected as incomplete exactly when
   * some trimmed field is empty, whatever the port text holds.
   */
  lemma RequiredFieldsFirst(f: Form)
    ensures OnSave(f) == Rejected(FIELDS_REQUIRED) <==> !AllFilled(f)
  {
  }

  /**
   * With every field filled, the save is rejected for its port exactly when the trimmed
   * port text is not a Java `int` or lies outside 1..65535.
   */
  lemma InvalidPortRejected(f: Form)
    ensures OnSave(f) == Rejected(INVALID_PORT) <==>
      AllFilled(f) && (ParseInt(Trim(f.port)).None? || !(MIN_PORT <= ParseInt(Trim(f.port)).value <= MAX_PORT))
  {
  }

  /**
   * An accepted destination holds the trimmed fields and the parsed port, and satisfies the
   * destination invariant.
   */
  lemma SavedDestination(f: Form)
    requires OnSave(f).Saved?
    ensures var d := OnSave(f).destination;
      && d.name == Trim(f.name) && d.user == Trim(f.user) && d.host == Trim(f.host)
      && d.directory == Trim(f.directory) && ParseInt(Trim(f.port)) == Some(d.port)
      && IsValidDestination(d)
  {
    TrimIdempotent(f.name);
    TrimIdempotent(f.user);
    TrimIdempotent(f.host);
    TrimIdempotent(f.directory);
  }

  /** The decimal text of a port has no character `trim` would remove. */
  lemma PortTextTrimmed(p: Int32)
    ensures Trim(IntToString(p)) == IntToString(p)
  {
    var s := IntToString(p);
    assert !IsTrimmed(s[0]) && !IsTrimmed(s[|s| - 1]) by {
      if p < 0 {
        assert s == "-" + NatToString(-(p as int));
      }
    }
    TrimUnchanged(s);
  }

  /**
   * Opening the edit dialog on a valid destination and pressing Save without changing
   * anything saves that same destination.
   */
  lemma EditWithoutChangesSavesSame(d: Destination)
    requires IsValidDestination(d)
    ensures OnSave(Prefill(Some(d))) == Saved(d)
  {
    PortTextTrimmed(d.port);
    ParseIntToString(d.port);
  }

  /** Whatever Save accepts is accepted again, unchanged, when re-opened for editing. */
  lemma ResaveIsIdentity(f: Form)
    requires OnSave(f).Saved?
    ensures OnSave(Prefill(Some(OnSave(f).destination))) == OnSave(f)
  {
    SavedDestination(f);
    EditWithoutChangesSavesSame(OnSave(f).destination);
  }

  /** The add form's default port is accepted as port 22. */
  lemma DefaultPortAccepted()
    ensures ParsePort(Trim(Prefill(None).port)) == Some(22)
  {
    assert Trim(DEFAULT_PORT) == DEFAULT_PORT;
    assert DEFAULT_PORT[1..] == "2";
    assert AllDigits(DEFAULT_PORT);
    assert DigitsValue(DEFAULT_PORT) == 22 by {
      assert DEFAULT_PORT[..1] == "2";
    }
  }

  /** Ports 0 and 70000, just outside the range, are refused. */
  lemma PortBoundariesRejected()
    ensures ParsePort("0") == None && ParsePort("70000") == None
  {
    assert DigitsValue("0") == 0 by { assert "0"[..0] == []; }
    assert DigitsValue("7") == 7 by { assert "7"[..0] == []; }
    assert DigitsValue("70") == 70 by { assert "70"[..1] == "7"; }
    assert DigitsValue("700") == 700 by { assert "700"[..2] == "70"; }
    assert DigitsValue("7000") == 7000 by { assert "7000"[..3] == "700"; }
    assert DigitsValue("70000") == 70000 by { assert "70000"[..4] == "7000"; }
  }

  /** Ports 1 and 65535, the end points of the range, are taken. */
  lemma PortBoundariesAccepted()
    ensures ParsePort("1") == Some(1) && ParsePort("65535") == Some(65535)
  {
    assert DigitsValue("1") == 1 by { assert "1"[..0] == []; }
    assert DigitsValue("6") == 6 by { assert "6"[..0] == []; }
    assert DigitsValue("65") == 65 by { assert "65"[..1] == "6"; }
    assert DigitsValue("655") == 655 by { assert "655"[..2] == "65"; }
    assert DigitsValue("6553") == 6553 by { assert "6553"[..3] == "655"; }
    assert DigitsValue("65535") == 65535 by { assert "65535"[..4] == "6553"; }
  }
}
