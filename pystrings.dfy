/**
 * The pieces of Python's `str` that the link resolver relies on: the
 * substring test `pat in s` and `s.split(sep)`, both built on the search
 * for the first occurrence of a pattern.
 */
module PyStrings {
  import opened Wrappers

  /** `pat` occurs in `s` starting at index `i`. */
  predicate OccursAt(s: string, pat: string, i: nat) {
    i + |pat| <= |s| && s[i..i + |pat|] == pat
  }

  /** The first index at or after `from` where `pat` occurs in `s`. */
  function FindFrom(s: string, pat: string, from: nat): (r: Option<nat>)
    requires from <= |s|
    decreases |s| - from
    ensures r.Some? ==> from <= r.value && OccursAt(s, pat, r.value)
    ensures r.Some? ==> forall j: nat :: from <= j < r.value ==> !OccursAt(s, pat, j)
    ensures r.None? ==> forall j: nat :: from <= j ==> !OccursAt(s, pat, j)
  {
    if OccursAt(s, pat, from) then Some(from)
    else if from == |s| then None
    else FindFrom(s, pat, from + 1)
  }

  /** The index of the first occurrence of `pat` in `s` (Python's `s.find(pat)`). */
  function Find(s: string, pat: string): (r: Option<nat>)
    ensures r.Some? ==> OccursAt(s, pat, r.value)
    ensures r.Some? ==> forall j: nat :: j < r.value ==> !OccursAt(s, pat, j)
    ensures r.None? ==> forall j: nat :: !OccursAt(s, pat, j)
  {
    FindFrom(s, pat, 0)
  }

  /** Python's `pat in s`. */
  predicate Contains(s: string, pat: string)
  {
    Find(s, pat).Some?
  }

  lemma ContainsIff(s: string, pat: string)
    ensures Contains(s, pat) <==> exists i: nat :: OccursAt(s, pat, i)
  {
    if Contains(s, pat) {
      assert OccursAt(s, pat, Find(s, pat).value);
    }
  }

  /** The text of `s` before the first `sep`, or all of `s` (Python's `s.split(sep)[0]`). */
  function Cut(s: string, sep: string): (r: string)
    requires |sep| > 0
    ensures r <= s
    ensures Contains(s, sep) ==> OccursAt(s, sep, |r|) && Find(s, sep) == Some(|r|)
    ensures !Contains(s, sep) ==> r == s
    ensures !Contains(r, sep)
  {
    match Find(s, sep)
    case None => s
    case Some(i) =>
      assert forall j: nat :: OccursAt(s[..i], sep, j) ==> OccursAt(s, sep, j) by {
        forall j: nat | OccursAt(s[..i], sep, j) ensures OccursAt(s, sep, j) {
          assert s[..i][j..j + |sep|] == s[j..j + |sep|];
        }
      }
      s[..i]
  }

  /** The text of `s` after the first `sep`. */
  function After(s: string, sep: string): (r: string)
    requires |sep| > 0 && Contains(s, sep)
    ensures s == Cut(s, sep) + sep + r
  {
    var i := Find(s, sep).value;
    assert s == s[..i] + s[i..i + |sep|] + s[i + |sep|..];
    s[i + |sep|..]
  }

  /** Python's `s.split(sep)` for a non-empty separator. */
  function Split(s: string, sep: string): (parts: seq<string>)
    requires |sep| > 0
    decreases |s|
    ensures |parts| >= 1 && parts[0] == Cut(s, sep)
    ensures |parts| > 1 <==> Contains(s, sep)
    ensures forall k :: 0 <= k < |parts| ==> !Contains(parts[k], sep)
  {
    match Find(s, sep)
    case None => [s]
    case Some(i) => [s[..i]] + Split(s[i + |sep|..], sep)
  }

  /** Python's `sep.join(parts)`. */
  function Join(parts: seq<string>, sep: string): string
    requires |parts| >= 1
    decreases |parts|
  {
    if |parts| == 1 then parts[0] else parts[0] + sep + Join(parts[1..], sep)
  }

  /** A split of text containing the separator is its first piece followed by the split of the rest. */
  lemma SplitUnfold(s: string, sep: string)
    requires |sep| > 0 && Contains(s, sep)
    ensures Split(s, sep) == [Cut(s, sep)] + Split(After(s, sep), sep)
  {
  }

  /** Splitting and re-joining gives back the original text. */
  lemma {:induction false} JoinSplit(s: string, sep: string)
    requires |sep| > 0
    ensures Join(Split(s, sep), sep) == s
    decreases |s|
  {
    if Contains(s, sep) {
      var rest := After(s, sep);
      SplitUnfold(s, sep);
      JoinSplit(rest, sep);
      JoinCons(Cut(s, sep), Split(rest, sep), sep);
    }
  }

  lemma JoinCons(head: string, tail: seq<string>, sep: string)
    requires |tail| >= 1
    ensures Join([head] + tail, sep) == head + sep + Join(tail, sep)
  {
    assert ([head] + tail)[1..] == tail;
  }

  /** The second piece of a split is the text after the first `sep` up to the next one. */
  lemma SplitSecond(s: string, sep: string)
    requires |sep| > 0 && Contains(s, sep)
    ensures |Split(s, sep)| > 1 && Split(s, sep)[1] == Cut(After(s, sep), sep)
  {
    var i := Find(s, sep).value;
    assert After(s, sep) == s[i + |sep|..];
  }
}
