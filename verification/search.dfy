/** The naive substring search the decryptor uses to find the "SND " marker
    (`FindInArray`, Program.cs:36-52). */
module ByteSearch {
  import opened BankTypes

  /** `term` occurs in `data` starting at index `i`. */
  predicate MatchesAt(data: seq<byte>, term: seq<byte>, i: nat)
  {
    i + |term| <= |data| && data[i..i + |term|] == term
  }

  /** The first index at or after `from` where `term` occurs, if any. */
  function FirstMatchFrom(data: seq<byte>, term: seq<byte>, from: nat): (r: Option<nat>)
    decreases |data| - from
    ensures r.Some? ==> from <= r.value && MatchesAt(data, term, r.value)
    ensures r.Some? ==> forall j :: from <= j < r.value ==> !MatchesAt(data, term, j)
    ensures r.None? ==> forall j :: from <= j ==> !MatchesAt(data, term, j)
  {
    if from + |term| > |data| then None
    else if data[from..from + |term|] == term then Some(from)
    else FirstMatchFrom(data, term, from + 1)
  }

  /** The result `FindInArray` promises: nothing for an empty term or one
      longer than the data, otherwise the first occurrence. */
  function FirstMatch(data: seq<byte>, term: seq<byte>): (r: Option<nat>)
    ensures r.None? <==>
      (|term| == 0 || |term| > |data| || forall j :: 0 <= j ==> !MatchesAt(data, term, j))
    ensures r.Some? ==> MatchesAt(data, term, r.value)
    ensures r.Some? ==> forall j :: 0 <= j < r.value ==> !MatchesAt(data, term, j)
  {
    if |term| == 0 || |term| > |data| then None
    else FirstMatchFrom(data, term, 0)
  }

  /** The nested-loop search exactly as written: the outer loop tries each
      start index, the inner loop compares byte by byte and breaks on the
      first difference. */
  method FindInArray(data: seq<byte>, term: seq<byte>) returns (r: Option<nat>)
    ensures r == FirstMatch(data, term)
    ensures r.Some? ==> r.value + |term| <= |data| && data[r.value..r.value + |term|] == term
  {
    if |term| == 0 || |term| > |data| {
      return None;
    }
    var i: nat := 0;
    while i < |data| - |term| + 1
      invariant 0 <= i <= |data| - |term| + 1
      invariant forall k :: 0 <= k < i ==> !MatchesAt(data, term, k)
    {
      var matches := true;
      var j := 0;
      while j < |term|
        invariant 0 <= j <= |term|
        invariant matches ==> data[i..i + j] == term[..j]
        invariant !matches ==> !MatchesAt(data, term, i)
        decreases |term| - j, matches
      {
        if data[i + j] != term[j] {
          matches := false;
          break;
        }
        assert data[i..i + j + 1] == data[i..i + j] + [data[i + j]];
        assert term[..j + 1] == term[..j] + [term[j]];
        j := j + 1;
      }
      if matches {
        assert term[..|term|] == term;
        FirstMatchFromIsFirst(data, term, 0, i);
        return Some(i);
      }
      i := i + 1;
    }
    NoMatchIsNone(data, term);
    return None;
  }

  /** If `i` matches and nothing in `[from, i)` does, the search from `from`
      returns `i`. */
  lemma {:induction false} FirstMatchFromIsFirst(data: seq<byte>, term: seq<byte>, from: nat, i: nat)
    requires from <= i && MatchesAt(data, term, i)
    requires forall k :: from <= k < i ==> !MatchesAt(data, term, k)
    ensures FirstMatchFrom(data, term, from) == Some(i)
    decreases i - from
  {
    if from < i {
      assert !MatchesAt(data, term, from);
      FirstMatchFromIsFirst(data, term, from + 1, i);
    }
  }

  lemma NoMatchIsNone(data: seq<byte>, term: seq<byte>)
    requires 0 < |term| <= |data|
    requires forall k :: 0 <= k < |data| - |term| + 1 ==> !MatchesAt(data, term, k)
    ensures FirstMatch(data, term) == None
  {
    forall j | 0 <= j
      ensures !MatchesAt(data, term, j)
    {
      if j < |data| - |term| + 1 {
        assert !MatchesAt(data, term, j);
      }
    }
  }
}
