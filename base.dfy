/** Small shared vocabulary: an optional value and the one-element `splice`. */
module Base {

  /** A value that may be absent; `None` stands for a cancelled prompt or a JavaScript `null`. */
  datatype Option<T> = None | Some(value: T)

  /**
   * `s.splice(i, 1)` for a non-negative index: removes the element at `i`
   * when there is one and otherwise leaves the sequence as it is.
   */
  function RemoveAt<T>(s: seq<T>, i: nat): (r: seq<T>)
    ensures i < |s| ==> |r| == |s| - 1
    ensures i < |s| ==> forall j :: 0 <= j < i ==> r[j] == s[j]
    ensures i < |s| ==> forall j :: i <= j < |r| ==> r[j] == s[j + 1]
    ensures i >= |s| ==> r == s
  {
    if i < |s| then s[..i] + s[i + 1..] else s
  }

  /** Removing at `i` takes out exactly one occurrence of `s[i]` and nothing else. */
  lemma RemoveAtMultiset<T>(s: seq<T>, i: nat)
    requires i < |s|
    ensures multiset(RemoveAt(s, i)) + multiset{s[i]} == multiset(s)
  {
    assert s == s[..i] + [s[i]] + s[i + 1..];
  }

  /** Removing the element that was just appended gives back the original sequence. */
  lemma RemoveAtAppended<T>(s: seq<T>, x: T)
    ensures RemoveAt(s + [x], |s|) == s
  {
    assert (s + [x])[..|s|] == s;
  }
}
