/**
 * `ManageDestinationsDialog`: the list of destinations behind the "Manage Destinations"
 * dialog. The adapter's list is the very list `show` loaded from the settings, so adding,
 * editing and deleting change it in place; after each change the whole list is saved and
 * the change listener is told.
 */
module DestinationList {
  import opened Destinations
  import opened Settings

  /** The list with the first element that is `x` (by identity, as `List.remove` with the inherited `equals`) taken out. */
  function RemoveFirst(s: seq<LinuxDestination>, x: LinuxDestination): (r: seq<LinuxDestination>)
    ensures |r| == if x in s then |s| - 1 else |s|
    ensures forall y :: y in r ==> y in s
  {
    if s == [] then []
    else if s[0] == x then s[1..]
    else [s[0]] + RemoveFirst(s[1..], x)
  }

  /** The index of the first `x` in `s`. */
  function IndexOf(s: seq<LinuxDestination>, x: LinuxDestination): (i: nat)
    requires x in s
    ensures i < |s| && s[i] == x && x !in s[..i]
  {
    if s[0] == x then 0 else 1 + IndexOf(s[1..], x)
  }

  /** Removing an element that is in the list takes out its first occurrence and keeps the rest in order. */
  lemma {:induction false} RemoveFirstPresent(s: seq<LinuxDestination>, x: LinuxDestination)
    requires x in s
    ensures RemoveFirst(s, x) == s[..IndexOf(s, x)] + s[IndexOf(s, x) + 1..]
  {
    if s[0] != x {
      assert x in s[1..];
      RemoveFirstPresent(s[1..], x);
      var i := IndexOf(s[1..], x);
      assert IndexOf(s, x) == i + 1;
      assert s[..i + 1] == [s[0]] + s[1..][..i];
      assert s[i + 2..] == s[1..][i + 1..];
    }
  }

  /** Removing an element that is not in the list leaves the list as it is. */
  lemma {:induction false} RemoveFirstAbsent(s: seq<LinuxDestination>, x: LinuxDestination)
    requires x !in s
    ensures RemoveFirst(s, x) == s
  {
    if s != [] {
      RemoveFirstAbsent(s[1..], x);
      assert s == [s[0]] + s[1..];
    }
  }

  lemma RemoveFirstSpec(s: seq<LinuxDestination>, x: LinuxDestination)
    ensures x in s ==> RemoveFirst(s, x) == s[..IndexOf(s, x)] + s[IndexOf(s, x) + 1..]
    ensures x !in s ==> RemoveFirst(s, x) == s
  {
    if x in s {
      RemoveFirstPresent(s, x);
    } else {
      RemoveFirstAbsent(s, x);
    }
  }

  /** A list without repeated objects keeps that property when an element is removed. */
  lemma RemoveFirstDistinct(s: seq<LinuxDestination>, x: LinuxDestination)
    requires Distinct(s)
    ensures Distinct(RemoveFirst(s, x))
  {
    if x in s {
      RemoveFirstPresent(s, x);
      var i := IndexOf(s, x);
      var r := RemoveFirst(s, x);
      forall a, b | 0 <= a < b < |r| ensures r[a] != r[b] {
        var a' := if a < i then a else a + 1;
        var b' := if b < i then b else b + 1;
        assert r[a] == s[a'] && r[b] == s[b'];
      }
    } else {
      RemoveFirstAbsent(s, x);
    }
  }

  /** The five setter calls of the edit listener: every field of `destination` takes the edited value. */
  method Overwrite(destination: LinuxDestination, edited: Destination)
    modifies destination
    ensures destination.Value() == edited
  {
    destination.SetName(edited.name);
    destination.SetUser(edited.user);
    destination.SetHost(edited.host);
    destination.SetPort(edited.port);
    destination.SetDirectory(edited.directory);
  }

  lemma DistinctAppend(s: seq<LinuxDestination>, x: LinuxDestination)
    requires Distinct(s) && x !in s
    ensures Distinct(s + [x])
  {
  }

  lemma ValuesAppend(s: seq<LinuxDestination>, x: LinuxDestination)
    ensures Values(s + [x]) == Values(s) + [x.Value()]
  {
    ValuesPointwise(s + [x], Values(s) + [x.Value()]);
  }

  class DestinationAdapter {
    /** The shared `destinations` list, in display order. */
    var items: seq<LinuxDestination>
    const settings: SettingsManager
    /** How many times `onDestinationsChanged` has been called. */
    var changes: nat

    predicate Valid()
      reads this, settings
    {
      settings.Valid() && Distinct(items)
    }

    /** `show`: the list is loaded from the settings and handed to a new adapter. */
    constructor (settings: SettingsManager)
      requires settings.Valid()
      ensures Valid() && this.settings == settings && changes == 0
      ensures Values(items) == settings.Destinations()
      ensures forall d :: d in items ==> fresh(d)
    {
      this.settings := settings;
      var loaded := settings.GetDestinations();
      items := loaded;
      changes := 0;
    }

    /** `getCount()`. */
    function Count(): nat
      reads this
    {
      |items|
    }

    /** `getAll()`: the adapter's items, collected one `getItem(i)` at a time. */
    method GetAll() returns (all: seq<LinuxDestination>)
      ensures all == items && |all| == Count()
    {
      all := [];
      for i := 0 to Count()
        invariant all == items[..i]
      {
        all := all + [items[i]];
      }
    }

    /**
     * What every listener ends with: `saveDestinations(getAll())`, `notifyDataSetChanged()`
     * and `onDestinationsChanged()`.
     */
    method SaveAndNotify()
      requires settings.Valid()
      modifies this`changes, settings
      ensures settings.Valid() && settings.Destinations() == Values(items)
      ensures settings.prefs == old(settings.prefs)[KEY_DESTINATIONS := JsonText(EncodeDestinations(Values(items)))]
      ensures changes == old(changes) + 1
      ensures Values(items) == old(Values(items))
    {
      var all := GetAll();
      settings.SaveDestinations(all);
      changes := changes + 1;
    }

    /** The Add button's listener: append the new destination, save the list, notify. */
    method Add(d: Destination)
      requires Valid()
      modifies this, settings
      ensures Valid()
      ensures |items| == old(|items|) + 1 && items == old(items) + [items[|items| - 1]]
      ensures fresh(items[|items| - 1])
      ensures Values(items) == old(Values(items)) + [d]
      ensures settings.Destinations() == Values(items)
      ensures settings.prefs == old(settings.prefs)[KEY_DESTINATIONS := JsonText(EncodeDestinations(Values(items)))]
      ensures changes == old(changes) + 1
    {
      ghost var before := Values(items);
      var obj := new LinuxDestination(d.name, d.user, d.host, d.port, d.directory);
      assert obj.Value() == d;
      assert Values(items) == before;
      DistinctAppend(items, obj);
      ValuesAppend(items, obj);
      items := items + [obj];
      ghost var now := Values(items);
      assert now == before + [d];
      SaveAndNotify();
      assert Values(items) == now;
    }

    /**
     * The edit dialog's listener for the row at `position`: the five setters overwrite that
     * entry's fields in place, then the list is saved and the listener notified.
     */
    method Edit(position: nat, edited: Destination)
      requires Valid() && position < |items|
      modifies this, items[position], settings
      ensures Valid() && items == old(items)
      ensures Values(items) == old(Values(items))[position := edited]
      ensures settings.Destinations() == Values(items)
      ensures settings.prefs == old(settings.prefs)[KEY_DESTINATIONS := JsonText(EncodeDestinations(Values(items)))]
      ensures changes == old(changes) + 1
    {
      ghost var before := Values(items);
      var destination := items[position];
      Overwrite(destination, edited);
      forall k | 0 <= k < |items| ensures items[k].Value() == before[position := edited][k] {
        if k != position {
          assert items[k] != items[position];
        }
      }
      ValuesPointwise(items, before[position := edited]);
      SaveAndNotify();
    }

    /**
     * The delete confirmation's listener: `remove(destination)`, then save and notify. The
     * entry goes, and the others keep their relative order.
     */
    method Delete(destination: LinuxDestination)
      requires Valid()
      modifies this, settings
      ensures Valid()
      ensures destination in old(items) ==>
        var i := IndexOf(old(items), destination);
        items == old(items)[..i] + old(items)[i + 1..] && |items| == old(|items|) - 1
      ensures destination !in old(items) ==> items == old(items)
      ensures settings.Destinations() == Values(items)
      ensures settings.prefs == old(settings.prefs)[KEY_DESTINATIONS := JsonText(EncodeDestinations(Values(items)))]
      ensures changes == old(changes) + 1
    {
      RemoveFirstSpec(items, destination);
      RemoveFirstDistinct(items, destination);
      items := RemoveFirst(items, destination);
      SaveAndNotify();
    }
  }
}
