/** The bounded recency list both searches keep: append, then evict the oldest entry
    when the list has grown past its capacity. */
module Fifo {

  /** `lst.append(x)` followed by `if len(lst) > cap: lst.pop(0)`. */
  function Push<T>(lst: seq<T>, x: T, cap: int): (r: seq<T>)
    ensures |lst| + 1 <= cap ==> r == lst + [x]
    ensures cap < |lst| + 1 && |lst| > 0 ==> r == lst[1..] + [x]
    ensures cap < 1 && |lst| == 0 ==> r == []
    ensures (1 <= cap || |lst| > 0) ==> |r| > 0 && r[|r| - 1] == x
    ensures 1 <= cap && |lst| <= cap ==> 1 <= |r| <= cap
  {
    var grown := lst + [x];
    if |grown| > cap then grown[1..] else grown
  }

  /** The newest `cap` entries of `s` (all of `s` when it is shorter). */
  function Window<T>(s: seq<T>, cap: nat): (r: seq<T>)
    ensures |r| <= cap && |r| <= |s|
    ensures |r| == cap || |r| == |s|
  {
    if |s| <= cap then s else s[|s| - cap..]
  }

  /** The window is a suffix: its entries are the last ones of `s`, in order. */
  lemma WindowIsSuffix<T>(s: seq<T>, cap: nat)
    ensures Window(s, cap) == s[|s| - |Window(s, cap)|..]
  {
  }

  /** The window is empty only for an empty history, and otherwise ends with the
      newest entry. */
  lemma WindowEnds<T>(s: seq<T>, cap: nat)
    requires 1 <= cap
    ensures Window(s, cap) == [] <==> s == []
    ensures |s| > 0 ==> Window(s, cap)[|Window(s, cap)| - 1] == s[|s| - 1]
  {
  }

  /** Pushing onto the window of a history gives the window of the extended history:
      a list that starts empty and is pushed to after every step always holds exactly the
      newest `cap` steps, oldest first. */
  lemma {:induction false} PushExtendsWindow<T>(s: seq<T>, x: T, cap: nat)
    requires 1 <= cap
    ensures Push(Window(s, cap), x, cap) == Window(s + [x], cap)
  {
  }
}
