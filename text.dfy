/** Character-level string helpers shared by the two line parsers: the C
    library's isspace, the erase/remove_if idiom that deletes whitespace,
    std::string::find and prefix/suffix tests. */
module Text {
  import opened Wrappers

  /** isspace in the C locale: space, and \t \n \v \f \r (codes 9 to 13). */
  predicate IsSpace(c: char) {
    c == ' ' || '\t' <= c <= '\r'
  }

  predicate NoSpaces(s: string) {
    forall i :: 0 <= i < |s| ==> !IsSpace(s[i])
  }

  /** s.erase(remove_if(s.begin(), s.end(), isspace), s.end()): the
      non-space characters of s, in their order. */
  function RemoveSpaces(s: string): (r: string)
    ensures |r| <= |s| && NoSpaces(r)
  {
    if s == [] then []
    else (if IsSpace(s[0]) then [] else [s[0]]) + RemoveSpaces(s[1..])
  }

  lemma {:induction false} RemoveSpacesAppend(a: string, b: string)
    ensures RemoveSpaces(a + b) == RemoveSpaces(a) + RemoveSpaces(b)
  {
    if a != [] {
      assert (a + b)[1..] == a[1..] + b;
      RemoveSpacesAppend(a[1..], b);
    } else {
      assert a + b == b;
    }
  }

  /** Text without whitespace is left as it is. */
  lemma {:induction false} RemoveSpacesNoSpaces(s: string)
    requires NoSpaces(s)
    ensures RemoveSpaces(s) == s
  {
    if s != [] {
      RemoveSpacesNoSpaces(s[1..]);
      assert s == [s[0]] + s[1..];
    }
  }

  /** A character s lacks is not in RemoveSpaces(s) either. */
  lemma {:induction false} RemoveSpacesLacks(s: string, c: char)
    requires c !in s
    ensures c !in RemoveSpaces(s)
  {
    if s != [] {
      RemoveSpacesLacks(s[1..], c);
    }
  }

  /** All-whitespace text disappears entirely. */
  lemma {:induction false} RemoveSpacesAllSpace(s: string)
    requires forall i :: 0 <= i < |s| ==> IsSpace(s[i])
    ensures RemoveSpaces(s) == []
  {
    if s != [] {
      RemoveSpacesAllSpace(s[1..]);
    }
  }

  /** Whitespace in the middle of a string makes no difference. */
  lemma RemoveSpacesDropsSpaces(a: string, b: string, c: string)
    requires forall i :: 0 <= i < |b| ==> IsSpace(b[i])
    ensures RemoveSpaces(a + b + c) == RemoveSpaces(a + c)
  {
    RemoveSpacesAllSpace(b);
    RemoveSpacesAppend(a, b);
    var ab := a + b;
    assert RemoveSpaces(ab) == RemoveSpaces(a) + [];
    RemoveSpacesAppend(ab, c);
    RemoveSpacesAppend(a, c);
  }

  /** s.find(c, from): the first position at or after from holding c, None
      standing for npos. */
  function FindFrom(s: string, c: char, from: nat): (r: Option<nat>)
    ensures r.Some? ==> from <= r.value < |s| && s[r.value] == c
    ensures r.Some? ==> forall k :: from <= k < r.value ==> s[k] != c
    ensures r.None? ==> forall k :: from <= k < |s| ==> s[k] != c
    decreases |s| - from
  {
    if from >= |s| then None
    else if s[from] == c then Some(from)
    else FindFrom(s, c, from + 1)
  }

  /** A position holding c with no c before it is what find returns. */
  lemma FindFirst(s: string, c: char, from: nat, p: nat)
    requires from <= p < |s| && s[p] == c
    requires forall k :: from <= k < p ==> s[k] != c
    ensures FindFrom(s, c, from) == Some(p)
  {
  }

  predicate StartsWith(s: string, prefix: string) {
    |prefix| <= |s| && s[..|prefix|] == prefix
  }

  /** The comparison of the last |suffix| characters, done only when the
      suffix is no longer than s. */
  predicate EndsWith(s: string, suffix: string) {
    |suffix| <= |s| && s[|s| - |suffix|..] == suffix
  }
}
