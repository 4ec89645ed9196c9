/** `LinuxDestination`: a named SSH target, an object with five mutable fields. */
module Destinations {
  import opened Wrappers
  import opened JavaInt

  /** The five fields of a destination, as a value. */
  datatype Destination = Destination(name: string, user: string, host: string, port: Int32, directory: string)

  /** `toString()`: `name (user@host:port)`. */
  function Label(d: Destination): (l: string)
    ensures |l| > |d.name| + 2 && l[..|d.name|] == d.name && l[|l| - 1] == ')'
  {
    d.name + " (" + d.user + "@" + d.host + ":" + IntToString(d.port) + ")"
  }

  class LinuxDestination {
    var name: string
    var user: string
    var host: string
    var port: Int32
    var directory: string

    /** The constructor stores its arguments as they are; any `int` is accepted as port. */
    constructor (name: string, user: string, host: string, port: Int32, directory: string)
      ensures GetName() == name && GetUser() == user && GetHost() == host
      ensures GetPort() == port && GetDirectory() == directory
    {
      this.name := name;
      this.user := user;
      this.host := host;
      this.port := port;
      this.directory := directory;
    }

    /** The current field values. */
    function Value(): Destination
      reads this
    {
      Destination(name, user, host, port, directory)
    }

    function GetName(): string reads this { name }
    function GetUser(): string reads this { user }
    function GetHost(): string reads this { host }
    function GetPort(): Int32 reads this { port }
    function GetDirectory(): string reads this { directory }

    method SetName(name: string)
      modifies this
      ensures Value() == old(Value()).(name := name)
    {
      this.name := name;
    }

    method SetUser(user: string)
      modifies this
      ensures Value() == old(Value()).(user := user)
    {
      this.user := user;
    }

    method SetHost(host: string)
      modifies this
      ensures Value() == old(Value()).(host := host)
    {
      this.host := host;
    }

    method SetPort(port: Int32)
      modifies this
      ensures Value() == old(Value()).(port := port)
    {
      this.port := port;
    }

    method SetDirectory(directory: string)
      modifies this
      ensures Value() == old(Value()).(directory := directory)
    {
      this.directory := directory;
    }

    function ToString(): string
      reads this
    {
      Label(Value())
    }
  }

  /** The field values of a list of destination objects, in list order. */
  function Values(ds: seq<LinuxDestination>): (vs: seq<Destination>)
    reads ds
    ensures |vs| == |ds| && forall i :: 0 <= i < |ds| ==> vs[i] == ds[i].Value()
  {
    if ds == [] then [] else [ds[0].Value()] + Values(ds[1..])
  }

  lemma ValuesPointwise(ds: seq<LinuxDestination>, vs: seq<Destination>)
    requires |ds| == |vs| && forall k :: 0 <= k < |ds| ==> ds[k].Value() == vs[k]
    ensures Values(ds) == vs
  {
  }

  /** No object appears twice in the list. */
  predicate Distinct(ds: seq<LinuxDestination>)
  {
    forall i, j :: 0 <= i < j < |ds| ==> ds[i] != ds[j]
  }

  /** The index of the last `c` in `s`, if any. */
  function LastIndexOf(s: string, c: char): (k: int)
    ensures -1 <= k < |s|
    ensures k >= 0 ==> s[k] == c
    ensures forall j :: k < j < |s| ==> s[j] != c
  {
    if s == [] then -1
    else if s[|s| - 1] == c then |s| - 1
    else LastIndexOf(s[..|s| - 1], c)
  }

  /**
   * The port is what stands between the last ':' and the closing ')' of a label, whatever
   * the other fields hold: the port part of a label always reads back as the port.
   */
  lemma LabelPort(d: Destination)
    ensures var l := Label(d); var k := LastIndexOf(l, ':');
      0 <= k < |l| - 1 && l[|l| - 1] == ')' && ParseInt(l[k + 1..|l| - 1]) == Some(d.port)
  {
    var p := IntToString(d.port);
    var prefix := d.name + " (" + d.user + "@" + d.host;
    assert Label(d) == prefix + ":" + p + ")";
    assert forall j :: 0 <= j < |p| ==> p[j] != ':' by {
      if d.port < 0 {
        assert p == "-" + NatToString(-(d.port as int));
      }
    }
    LastColon(prefix, p);
    ParseIntToString(d.port);
  }

  /** In `prefix:p)` with no ':' in `p`, the last ':' is the one after `prefix`. */
  lemma LastColon(prefix: string, p: string)
    requires forall j :: 0 <= j < |p| ==> p[j] != ':'
    ensures var l := prefix + ":" + p + ")"; var k := LastIndexOf(l, ':');
      k == |prefix| && l[|l| - 1] == ')' && l[k + 1..|l| - 1] == p
  {
    var l := prefix + ":" + p + ")";
    assert l[|prefix|] == ':';
    forall j | |prefix| < j < |l| ensures l[j] != ':' {
      if j < |l| - 1 {
        assert l[j] == p[j - |prefix| - 1];
      }
    }
    assert l[|prefix| + 1..|l| - 1] == p;
  }
}
