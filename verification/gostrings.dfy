/**
 The handful of Go `strings` functions the config parser relies on, over
 strings as sequences of characters. Every separator and cut character used
 by the parser is ASCII, so indexing by character agrees with Go's indexing
 by byte for the positions that matter.
 */
module GoStrings {

  /** `strings.Index(s, string(c))`: the position of the first `c` in `s`, or -1. */
  function Index(s: string, c: char): (r: int)
    ensures -1 <= r < |s|
    ensures r == -1 <==> c !in s
    ensures r >= 0 ==> s[r] == c && c !in s[..r]
  {
    if s == [] then -1
    else if s[0] == c then 0
    else
      var k := Index(s[1..], c);
      if k == -1 then -1
      else
        assert s[..k + 1] == [s[0]] + s[1..][..k];
        k + 1
  }

  /** Any position holding the first `c` is the one `Index` reports. */
  lemma IndexIsFirst(s: string, c: char, j: nat)
    requires j < |s| && s[j] == c && c !in s[..j]
    ensures Index(s, c) == j
  {
  }

  /** `strings.Split(s, string(c))[0]`: the text before the first `c`, or all of `s`. */
  function FirstField(s: string, c: char): (r: string)
    ensures r <= s
    ensures c !in r
    ensures c in s ==> s[|r|] == c
    ensures c !in s ==> r == s
  {
    var i := Index(s, c);
    if i == -1 then s else s[..i]
  }

  /** Every character of `s` belongs to `cutset`. */
  predicate AllIn(s: string, cutset: string) {
    forall i :: 0 <= i < |s| ==> s[i] in cutset
  }

  /** `strings.TrimLeft(s, cutset)`: drops the longest prefix made of cutset characters. */
  function TrimLeft(s: string, cutset: string): (r: string)
    ensures |r| <= |s| && r == s[|s| - |r|..]
    ensures AllIn(s[..|s| - |r|], cutset)
    ensures r != [] ==> r[0] !in cutset
  {
    if s != [] && s[0] in cutset then
      var r := TrimLeft(s[1..], cutset);
      assert s[..|s| - |r|] == [s[0]] + s[1..][..|s| - 1 - |r|];
      r
    else s
  }

  /** `strings.TrimRight(s, cutset)`: drops the longest suffix made of cutset characters. */
  function TrimRight(s: string, cutset: string): (r: string)
    ensures |r| <= |s| && r == s[..|r|]
    ensures AllIn(s[|r|..], cutset)
    ensures r != [] ==> r[|r| - 1] !in cutset
  {
    if s != [] && s[|s| - 1] in cutset then
      var r := TrimRight(s[..|s| - 1], cutset);
      assert s[|r|..] == s[..|s| - 1][|r|..] + [s[|s| - 1]];
      r
    else s
  }

  /** `strings.Trim(s, cutset)`: drops cutset characters from both ends. */
  function Trim(s: string, cutset: string): (r: string)
    ensures |r| <= |s|
    ensures r == [] <==> AllIn(s, cutset)
    ensures r != [] ==> r[0] !in cutset && r[|r| - 1] !in cutset
  {
    var l := TrimLeft(s, cutset);
    var r := TrimRight(l, cutset);
    TrimEmptyIffBlank(s, l, r, cutset);
    r
  }

  /** Trimming both ends leaves nothing exactly when every character is a cut character. */
  lemma TrimEmptyIffBlank(s: string, l: string, r: string, cutset: string)
    requires l == TrimLeft(s, cutset) && r == TrimRight(l, cutset)
    ensures r == [] <==> AllIn(s, cutset)
  {
    var k := |s| - |l|;
    if r == [] {
      assert l[|r|..] == l;
      assert |l| == 0;
      forall i | 0 <= i < |s|
        ensures s[i] in cutset
      {
        assert s[i] == s[..k][i];
      }
    } else {
      assert r[0] == l[0] == s[k];
    }
  }

  /** What `Trim` keeps is one contiguous piece of its input. */
  lemma TrimIsSlice(s: string, cutset: string) returns (k: nat)
    ensures k + |Trim(s, cutset)| <= |s|
    ensures Trim(s, cutset) == s[k..k + |Trim(s, cutset)|]
  {
    var l := TrimLeft(s, cutset);
    var r := TrimRight(l, cutset);
    k := |s| - |l|;
    assert r == l[..|r|];
    assert l == s[k..];
    assert s[k..][..|r|] == s[k..k + |r|];
  }

  /** A character absent from the input is absent from the trimmed result. */
  lemma TrimKeepsOut(s: string, cutset: string, c: char)
    requires c !in s
    ensures c !in Trim(s, cutset)
  {
    var k := TrimIsSlice(s, cutset);
  }

  /** Trimming a core that starts and ends outside the cutset, padded on both
      sides with cutset characters, gives back exactly the core. */
  lemma {:induction false} TrimPadded(left: string, core: string, right: string, cutset: string)
    requires AllIn(left, cutset) && AllIn(right, cutset)
    requires core != [] ==> core[0] !in cutset && core[|core| - 1] !in cutset
    ensures Trim(left + core + right, cutset) == core
  {
    if core == [] {
      assert AllIn(left + core + right, cutset);
    } else {
      TrimLeftPadded(left, core + right, cutset);
      assert left + core + right == left + (core + right);
      TrimRightPadded(core, right, cutset);
    }
  }

  lemma {:induction false} TrimLeftPadded(left: string, rest: string, cutset: string)
    requires AllIn(left, cutset)
    requires rest != [] && rest[0] !in cutset
    ensures TrimLeft(left + rest, cutset) == rest
    decreases |left|
  {
    if left == [] {
      assert left + rest == rest;
    } else {
      assert (left + rest)[1..] == left[1..] + rest;
      TrimLeftPadded(left[1..], rest, cutset);
    }
  }

  lemma {:induction false} TrimRightPadded(rest: string, right: string, cutset: string)
    requires AllIn(right, cutset)
    requires rest != [] && rest[|rest| - 1] !in cutset
    ensures TrimRight(rest + right, cutset) == rest
    decreases |right|
  {
    if right == [] {
      assert rest + right == rest;
    } else {
      assert (rest + right)[..|rest + right| - 1] == rest + right[..|right| - 1];
      TrimRightPadded(rest, right[..|right| - 1], cutset);
    }
  }

  /** Trimming twice is trimming once. */
  lemma TrimIdempotent(s: string, cutset: string)
    ensures Trim(Trim(s, cutset), cutset) == Trim(s, cutset)
  {
    var t := Trim(s, cutset);
    TrimPadded([], t, [], cutset);
    assert [] + t + [] == t;
  }

  /** `s` ends with `suffix`. */
  predicate HasSuffix(s: string, suffix: string) {
    |suffix| <= |s| && s[|s| - |suffix|..] == suffix
  }

  /** `strings.TrimSuffix(s, suffix)`: removes one trailing `suffix` if present. */
  function TrimSuffix(s: string, suffix: string): (r: string)
    ensures HasSuffix(s, suffix) ==> r + suffix == s
    ensures !HasSuffix(s, suffix) ==> r == s
  {
    if HasSuffix(s, suffix) then
      var r := s[..|s| - |suffix|];
      assert r + suffix == s;
      r
    else s
  }

  /** Appending a suffix and trimming it off again is the identity. */
  lemma TrimSuffixOfAppend(s: string, suffix: string)
    ensures TrimSuffix(s + suffix, suffix) == s
  {
    assert HasSuffix(s + suffix, suffix) by {
      assert (s + suffix)[|s + suffix| - |suffix|..] == suffix;
    }
    var r := TrimSuffix(s + suffix, suffix);
    assert |r| == |s|;
    assert r == (r + suffix)[..|r|] == (s + suffix)[..|s|] == s;
  }
}
