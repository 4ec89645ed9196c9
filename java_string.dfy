/** The `java.lang.String` operations the app relies on: `trim` and `contains`. */
module JavaString {

  /** `String.trim` removes every character at or below U+0020 from both ends. */
  predicate IsTrimmed(c: char) { c <= ' ' }

  function TrimStart(s: string): (t: string)
    ensures |t| <= |s| && t == s[|s| - |t|..]
    ensures forall i :: 0 <= i < |s| - |t| ==> IsTrimmed(s[i])
    ensures t != [] ==> !IsTrimmed(t[0])
  {
    if s != [] && IsTrimmed(s[0]) then TrimStart(s[1..]) else s
  }

  function TrimEnd(s: string): (t: string)
    ensures |t| <= |s| && t == s[..|t|]
    ensures forall i :: |t| <= i < |s| ==> IsTrimmed(s[i])
    ensures t != [] ==> !IsTrimmed(t[|t| - 1])
  {
    if s != [] && IsTrimmed(s[|s| - 1]) then TrimEnd(s[..|s| - 1]) else s
  }

  /** `s.trim()`. */
  function Trim(s: string): (t: string)
    ensures |t| <= |s|
    ensures t != [] ==> !IsTrimmed(t[0]) && !IsTrimmed(t[|t| - 1])
  {
    var a := TrimStart(s);
    var t := TrimEnd(a);
    assert t != [] ==> t[0] == a[0];
    t
  }

  /**
   * `s[i..j]` is what is left of `s` once a run of removable characters before `i` and
   * one from `j` on are taken away.
   */
  predicate StripsTo(s: string, i: int, j: int)
  {
    && 0 <= i <= j <= |s|
    && (forall k :: 0 <= k < i ==> IsTrimmed(s[k]))
    && (forall k :: j <= k < |s| ==> IsTrimmed(s[k]))
  }

  /**
   * What `trim` promises: the result is `s` with removable characters taken from both
   * ends, and it neither starts nor ends with one.
   */
  lemma TrimSpec(s: string)
    ensures exists i, j :: StripsTo(s, i, j) && Trim(s) == s[i..j]
    ensures Trim(s) != [] ==> !IsTrimmed(Trim(s)[0]) && !IsTrimmed(Trim(s)[|Trim(s)| - 1])
  {
    var a := TrimStart(s);
    var t := TrimEnd(a);
    var i := |s| - |a|;
    var j := i + |t|;
    assert t == s[i..j] by {
      assert a == s[i..] && t == a[..|t|];
    }
    forall k | j <= k < |s| ensures IsTrimmed(s[k]) {
      assert s[k] == a[k - i];
    }
    assert StripsTo(s, i, j);
    if t != [] {
      assert t[0] == a[0];
    }
  }

  /** A string that neither starts nor ends with a removable character is its own trim. */
  lemma TrimUnchanged(s: string)
    requires s != [] ==> !IsTrimmed(s[0]) && !IsTrimmed(s[|s| - 1])
    ensures Trim(s) == s
  {
  }

  /** Trimming twice is trimming once. */
  lemma TrimIdempotent(s: string)
    ensures Trim(Trim(s)) == Trim(s)
  {
    TrimSpec(s);
    TrimUnchanged(Trim(s));
  }

  /** `sub` occurs in `s` starting at index `i`. */
  predicate OccursAt(s: string, sub: string, i: int)
  {
    0 <= i && i + |sub| <= |s| && s[i..i + |sub|] == sub
  }

  /** `s.contains(sub)`: `sub` occurs in `s` at some position. */
  predicate Contains(s: string, sub: string)
  {
    exists i :: 0 <= i <= |s| - |sub| && OccursAt(s, sub, i)
  }

  /** Whatever contains `outer` contains every part of `outer`. */
  lemma ContainsPart(s: string, outer: string, sub: string, i: nat)
    requires Contains(s, outer)
    requires OccursAt(outer, sub, i)
    ensures Contains(s, sub)
  {
    var p :| 0 <= p <= |s| - |outer| && OccursAt(s, outer, p);
    forall k | 0 <= k < |sub| ensures s[p + i + k] == sub[k] {
      assert s[p + i + k] == s[p..p + |outer|][i + k];
      assert outer[i + k] == outer[i..i + |sub|][k];
    }
    assert s[p + i..p + i + |sub|] == sub;
    assert OccursAt(s, sub, p + i);
  }
}
