/**
 * `SettingsManager`: the app's preferences file. `SharedPreferences` is a map from key to
 * value; a destination list is kept under one key as a JSON array of objects.
 */
module Settings {
  import opened Wrappers
  import opened JavaInt
  import opened Json
  import opened Destinations

  const KEY_DESTINATIONS: string := "destinations"
  const KEY_SELECTED_INDEX: string := "selected_index"
  const KEY_HAS_SSH_KEY: string := "has_ssh_key"

  /** A stored preference: a string (here the JSON value its text denotes), an int or a boolean. */
  datatype PrefValue = JsonText(json: JValue) | IntValue(intValue: Int32) | BoolValue(boolValue: bool)

  type Prefs = map<string, PrefValue>

  /**
   * Each key holds the kind of value its getter reads. Only this class writes these keys,
   * so the `ClassCastException` a mismatch would raise cannot occur.
   */
  predicate WellTyped(p: Prefs)
  {
    && (KEY_DESTINATIONS in p ==> p[KEY_DESTINATIONS].JsonText?)
    && (KEY_SELECTED_INDEX in p ==> p[KEY_SELECTED_INDEX].IntValue?)
    && (KEY_HAS_SSH_KEY in p ==> p[KEY_HAS_SSH_KEY].BoolValue?)
  }

  /** `prefs.getString(KEY_DESTINATIONS, "[]")`, as a JSON value. */
  function DestinationsJson(p: Prefs): JValue
    requires WellTyped(p)
  {
    if KEY_DESTINATIONS in p then p[KEY_DESTINATIONS].json else JArray([])
  }

  /** `prefs.getInt(KEY_SELECTED_INDEX, 0)`. */
  function SelectedIndexIn(p: Prefs): Int32
    requires WellTyped(p)
  {
    if KEY_SELECTED_INDEX in p then p[KEY_SELECTED_INDEX].intValue else 0
  }

  /** `prefs.getBoolean(KEY_HAS_SSH_KEY, false)`. */
  function HasSshKeyIn(p: Prefs): bool
    requires WellTyped(p)
  {
    if KEY_HAS_SSH_KEY in p then p[KEY_HAS_SSH_KEY].boolValue else false
  }

  /** The `JSONObject` `saveDestinations` builds for one destination. */
  function EncodeDestination(d: Destination): (v: JValue)
    ensures v.JObject? && |v.members| == 5
    ensures forall i, j :: 0 <= i < j < 5 ==> v.members[i].0 != v.members[j].0
  {
    assert "name"[0] == 'n' && "user"[0] == 'u' && "host"[0] == 'h' && "port"[0] == 'p' && "directory"[0] == 'd';
    JObject([
      ("name", JString(d.name)),
      ("user", JString(d.user)),
      ("host", JString(d.host)),
      ("port", JInt(d.port)),
      ("directory", JString(d.directory))])
  }

  /** The `JSONArray` `saveDestinations` builds, one object per destination in list order. */
  function EncodeDestinations(ds: seq<Destination>): (v: JValue)
    ensures v.JArray? && |v.items| == |ds|
    ensures forall i :: 0 <= i < |ds| ==> v.items[i] == EncodeDestination(ds[i])
  {
    if ds == [] then JArray([])
    else JArray([EncodeDestination(ds[0])] + EncodeDestinations(ds[1..]).items)
  }

  /**
   * One iteration of the `getDestinations` loop: `array.getJSONObject(i)` and the five
   * getters; None where one of them throws `JSONException`.
   */
  function DecodeDestination(v: JValue): (r: Option<Destination>)
    ensures r.Some? <==>
      && v.JObject? && GetString(v.members, "name").Some? && GetString(v.members, "user").Some?
      && GetString(v.members, "host").Some? && GetInt(v.members, "port").Some?
      && GetString(v.members, "directory").Some?
    ensures r.Some? ==> var d := r.value;
      && GetString(v.members, "name") == Some(d.name) && GetString(v.members, "user") == Some(d.user)
      && GetString(v.members, "host") == Some(d.host) && GetInt(v.members, "port") == Some(d.port)
      && GetString(v.members, "directory") == Some(d.directory)
  {
    if !v.JObject? then None
    else
      var name := GetString(v.members, "name");
      var user := GetString(v.members, "user");
      var host := GetString(v.members, "host");
      var port := GetInt(v.members, "port");
      var directory := GetString(v.members, "directory");
      if name.None? || user.None? || host.None? || port.None? || directory.None? then None
      else Some(Destination(name.value, user.value, host.value, port.value, directory.value))
  }

  /**
   * The entries decoded before the first one that throws: the `try` block encloses the
   * whole loop, so an exception ends the loop and keeps what was read so far.
   */
  function DecodeEntries(items: seq<JValue>): (ds: seq<Destination>)
    ensures |ds| <= |items|
    ensures forall i :: 0 <= i < |ds| ==> DecodeDestination(items[i]) == Some(ds[i])
    ensures |ds| < |items| ==> DecodeDestination(items[|ds|]).None?
  {
    if items == [] then []
    else match DecodeDestination(items[0])
      case None => []
      case Some(d) => [d] + DecodeEntries(items[1..])
  }

  /** `getDestinations`: `new JSONArray(json)` throws unless the text is an array. */
  function DecodeDestinations(v: JValue): (ds: seq<Destination>)
    ensures !v.JArray? ==> ds == []
    ensures v.JArray? ==> (
      && |ds| <= |v.items|
      && (forall i :: 0 <= i < |ds| ==> DecodeDestination(v.items[i]) == Some(ds[i]))
      && (|ds| < |v.items| ==> DecodeDestination(v.items[|ds|]).None?))
  {
    if v.JArray? then DecodeEntries(v.items) else []
  }

  /** The destinations the store currently yields. */
  function StoredDestinations(p: Prefs): seq<Destination>
    requires WellTyped(p)
  {
    DecodeDestinations(DestinationsJson(p))
  }

  /** Each getter finds the member `EncodeDestination` put under its key. */
  lemma EncodedName(d: Destination)
    ensures GetString(EncodeDestination(d).members, "name") == Some(d.name)
  {
  }

  lemma EncodedUser(d: Destination)
    ensures GetString(EncodeDestination(d).members, "user") == Some(d.user)
  {
    var m := EncodeDestination(d).members;
    assert "name" != "user" by { assert "name"[0] != "user"[0]; }
    assert Lookup(m, "user") == Lookup(m[1..], "user");
  }

  lemma EncodedHost(d: Destination)
    ensures GetString(EncodeDestination(d).members, "host") == Some(d.host)
  {
    var m := EncodeDestination(d).members;
    assert "name" != "host" && "user" != "host" by { assert "host"[0] != "name"[0] && "host"[0] != "user"[0]; }
    assert Lookup(m, "host") == Lookup(m[1..], "host") == Lookup(m[2..], "host");
  }

  lemma EncodedPort(d: Destination)
    ensures GetInt(EncodeDestination(d).members, "port") == Some(d.port)
  {
    var m := EncodeDestination(d).members;
    assert "name" != "port" && "user" != "port" && "host" != "port" by {
      assert "port"[0] != "name"[0] && "port"[0] != "user"[0] && "port"[0] != "host"[0];
    }
    assert Lookup(m, "port") == Lookup(m[1..], "port") == Lookup(m[2..], "port") == Lookup(m[3..], "port");
  }

  lemma EncodedDirectory(d: Destination)
    ensures GetString(EncodeDestination(d).members, "directory") == Some(d.directory)
  {
    var m := EncodeDestination(d).members;
    assert "name" != "directory" && "user" != "directory" && "host" != "directory" && "port" != "directory";
    assert Lookup(m, "directory") == Lookup(m[1..], "directory") == Lookup(m[2..], "directory")
      == Lookup(m[3..], "directory") == Lookup(m[4..], "directory");
  }

  lemma DecodeEncodeDestination(d: Destination)
    ensures DecodeDestination(EncodeDestination(d)) == Some(d)
  {
    EncodedName(d);
    EncodedUser(d);
    EncodedHost(d);
    EncodedPort(d);
    EncodedDirectory(d);
  }

  /** Saving a list and reading it back gives the same records in the same order. */
  lemma {:induction false} DecodeEncode(ds: seq<Destination>)
    ensures DecodeDestinations(EncodeDestinations(ds)) == ds
  {
    if ds != [] {
      var items := EncodeDestinations(ds).items;
      DecodeEncodeDestination(ds[0]);
      assert items[1..] == EncodeDestinations(ds[1..]).items;
      DecodeEncode(ds[1..]);
    }
  }

  /**
   * When entry `i` is the first that fails to decode, exactly the first `i` entries are
   * returned.
   */
  lemma {:induction false} DecodeStopsAtFailure(items: seq<JValue>, i: nat)
    requires i < |items| && DecodeDestination(items[i]).None?
    requires forall k :: 0 <= k < i ==> DecodeDestination(items[k]).Some?
    ensures |DecodeEntries(items)| == i
    ensures forall k :: 0 <= k < i ==> DecodeEntries(items)[k] == DecodeDestination(items[k]).value
  {
    if i > 0 {
      DecodeStopsAtFailure(items[1..], i - 1);
      assert forall k :: 1 <= k < i ==> items[1..][k - 1] == items[k];
    }
  }

  /** One step of the decoding loop at entry `i`. */
  lemma DecodeEntriesAt(items: seq<JValue>, i: nat)
    requires i < |items|
    ensures DecodeEntries(items[i..]) ==
      match DecodeDestination(items[i])
      case None => []
      case Some(d) => [d] + DecodeEntries(items[i + 1..])
  {
    assert items[i..][1..] == items[i + 1..];
  }

  /** With nothing stored the list is empty. */
  lemma NothingStored()
    ensures StoredDestinations(map[]) == []
    ensures SelectedIndexIn(map[]) == 0 && !HasSshKeyIn(map[])
  {
  }

  /** Saving destinations leaves the selected index and the key flag as they were. */
  lemma SaveDestinationsFrame(p: Prefs, ds: seq<Destination>)
    requires WellTyped(p)
    ensures var q := p[KEY_DESTINATIONS := JsonText(EncodeDestinations(ds))];
      WellTyped(q) && StoredDestinations(q) == ds
      && SelectedIndexIn(q) == SelectedIndexIn(p) && HasSshKeyIn(q) == HasSshKeyIn(p)
  {
    DecodeEncode(ds);
  }

  /** Setting the selected index changes what is read for it and nothing else. */
  lemma SetSelectedIndexFrame(p: Prefs, index: Int32)
    requires WellTyped(p)
    ensures var q := p[KEY_SELECTED_INDEX := IntValue(index)];
      WellTyped(q) && SelectedIndexIn(q) == index
      && StoredDestinations(q) == StoredDestinations(p) && HasSshKeyIn(q) == HasSshKeyIn(p)
  {
  }

  /** Setting the key flag changes what is read for it and nothing else. */
  lemma SetHasSshKeyFrame(p: Prefs, hasKey: bool)
    requires WellTyped(p)
    ensures var q := p[KEY_HAS_SSH_KEY := BoolValue(hasKey)];
      WellTyped(q) && HasSshKeyIn(q) == hasKey
      && StoredDestinations(q) == StoredDestinations(p) && SelectedIndexIn(q) == SelectedIndexIn(p)
  {
  }

  /** `list.add(new LinuxDestination(...))` for one decoded entry. */
  method AddDecoded(ds: seq<LinuxDestination>, ghost decoded: seq<Destination>, d: Destination)
    returns (ds2: seq<LinuxDestination>, ghost decoded2: seq<Destination>)
    requires |ds| == |decoded| && forall k :: 0 <= k < |ds| ==> ds[k].Value() == decoded[k]
    requires Distinct(ds)
    ensures decoded2 == decoded + [d]
    ensures |ds2| == |decoded2| && forall k :: 0 <= k < |ds2| ==> ds2[k].Value() == decoded2[k]
    ensures Distinct(ds2) && forall o :: o in ds2 ==> o in ds || fresh(o)
  {
    var obj := new LinuxDestination(d.name, d.user, d.host, d.port, d.directory);
    ds2 := ds + [obj];
    decoded2 := decoded + [d];
  }

  /** One decoded entry moves from the entries still to read to those read. */
  lemma DecodeNext(items: seq<JValue>, i: nat, decoded: seq<Destination>, d: Destination)
    requires i < |items| && DecodeDestination(items[i]) == Some(d)
    ensures decoded + DecodeEntries(items[i..]) == (decoded + [d]) + DecodeEntries(items[i + 1..])
  {
    DecodeEntriesAt(items, i);
  }

  /** An entry that fails to decode ends the list. */
  lemma DecodeFails(items: seq<JValue>, i: nat)
    requires i < |items| && DecodeDestination(items[i]).None?
    ensures DecodeEntries(items[i..]) == []
  {
    DecodeEntriesAt(items, i);
  }

  /** The loop of `getDestinations` over the array's entries, up to the first that throws. */
  method DecodeArray(items: seq<JValue>) returns (ds: seq<LinuxDestination>, ghost decoded: seq<Destination>)
    ensures decoded == DecodeEntries(items)
    ensures |ds| == |decoded| && forall k :: 0 <= k < |ds| ==> ds[k].Value() == decoded[k]
    ensures Distinct(ds) && forall d :: d in ds ==> fresh(d)
  {
    ds := [];
    decoded := [];
    var i := 0;
    while i < |items|
      invariant 0 <= i <= |items|
      invariant |ds| == |decoded| && forall k :: 0 <= k < |ds| ==> ds[k].Value() == decoded[k]
      invariant DecodeEntries(items) == decoded + DecodeEntries(items[i..])
      invariant Distinct(ds) && forall d :: d in ds ==> fresh(d)
    {
      var entry := DecodeDestination(items[i]);
      if entry.None? {
        DecodeFails(items, i);
        break;
      }
      DecodeNext(items, i, decoded, entry.value);
      ds, decoded := AddDecoded(ds, decoded, entry.value);
      i := i + 1;
    }
  }

  /** The loop of `saveDestinations`: one `JSONObject` per destination, in list order. */
  method EncodeList(ds: seq<LinuxDestination>) returns (items: seq<JValue>)
    ensures JArray(items) == EncodeDestinations(Values(ds))
  {
    items := [];
    for i := 0 to |ds|
      invariant |items| == i
      invariant forall k :: 0 <= k < i ==> items[k] == EncodeDestination(ds[k].Value())
    {
      items := items + [EncodeDestination(ds[i].Value())];
    }
    assert items == EncodeDestinations(Values(ds)).items;
  }

  class SettingsManager {
    /** The preferences file `PasteToAndroidPrefs`. */
    var prefs: Prefs

    predicate Valid()
      reads this
    {
      WellTyped(prefs)
    }

    constructor (stored: Prefs)
      requires WellTyped(stored)
      ensures Valid() && prefs == stored
    {
      prefs := stored;
    }

    /** The destinations `getDestinations` decodes from the stored JSON. */
    function Destinations(): seq<Destination>
      reads this
      requires Valid()
    {
      StoredDestinations(prefs)
    }

    /** Decodes the stored list into new destination objects, one per entry it can read. */
    method GetDestinations() returns (ds: seq<LinuxDestination>)
      requires Valid()
      ensures Values(ds) == Destinations()
      ensures Distinct(ds) && forall d :: d in ds ==> fresh(d)
    {
      var json := DestinationsJson(prefs);
      ds := [];
      if json.JArray? {
        ghost var decoded;
        ds, decoded := DecodeArray(json.items);
        ValuesPointwise(ds, decoded);
      }
    }

    /** Encodes the list's current field values and stores them under the destinations key. */
    method SaveDestinations(ds: seq<LinuxDestination>)
      requires Valid()
      modifies this
      ensures Valid() && prefs == old(prefs)[KEY_DESTINATIONS := JsonText(EncodeDestinations(Values(ds)))]
      ensures Destinations() == Values(ds)
    {
      var items := EncodeList(ds);
      SaveDestinationsFrame(prefs, Values(ds));
      prefs := prefs[KEY_DESTINATIONS := JsonText(JArray(items))];
    }

    function GetSelectedIndex(): Int32
      reads this
      requires Valid()
    {
      SelectedIndexIn(prefs)
    }

    method SetSelectedIndex(index: Int32)
      requires Valid()
      modifies this
      ensures Valid() && prefs == old(prefs)[KEY_SELECTED_INDEX := IntValue(index)]
      ensures GetSelectedIndex() == index
    {
      prefs := prefs[KEY_SELECTED_INDEX := IntValue(index)];
    }

    function HasSshKey(): bool
      reads this
      requires Valid()
    {
      HasSshKeyIn(prefs)
    }

    method SetHasSshKey(hasKey: bool)
      requires Valid()
      modifies this
      ensures Valid() && prefs == old(prefs)[KEY_HAS_SSH_KEY := BoolValue(hasKey)]
      ensures HasSshKey() == hasKey
    {
      prefs := prefs[KEY_HAS_SSH_KEY := BoolValue(hasKey)];
    }
  }
}
