/** Two helpers of keeper/static/keeper/inherit/scripts/unt.js outside the
    polyfill: the call-at-most-once guard built by
    `libutils.actWithTimeOut` for analytics events, and the catalog
    search's "invert author" button, which turns "first last" into
    "last, first". */
module LibUtils {
  import opened Wrappers
  import opened Text

  /** The delay used when none (or zero) is given, in milliseconds. */
  const DefaultTimeout: real := 1000.0

  /** `opt_timeout || 1000`. */
  function TimeoutDelay(opt: Option<real>): real
  {
    if opt.Some? && opt.value != 0.0 then opt.value else DefaultTimeout
  }

  /** The function `actWithTimeOut` returns, with its captured `called`
      flag. The timer set up beside it and any other caller both run it;
      `callbackRuns` counts how often the wrapped callback has run. */
  class OnceGuard {
    const delay: real
    var called: bool
    var callbackRuns: nat

    /** The callback has run once if the guard has been called, else
        never. */
    ghost predicate Valid()
      reads this
    {
      callbackRuns == if called then 1 else 0
    }

    /** `actWithTimeOut(callback, opt_timeout)`: nothing has run yet, and
        the timer is set to fire after the given delay, or after one
        second when the delay is absent or zero. */
    constructor (optTimeout: Option<real>)
      ensures Valid() && !called && callbackRuns == 0
      ensures optTimeout.Some? && optTimeout.value != 0.0 ==> delay == optTimeout.value
      ensures optTimeout.None? || optTimeout.value == 0.0 ==> delay == DefaultTimeout
    {
      delay := TimeoutDelay(optTimeout);
      called := false;
      callbackRuns := 0;
    }

    /** `fn()`: the first call runs the callback, later calls do nothing;
        so however often it is called, the callback has run exactly once. */
    method Call()
      requires Valid()
      modifies this
      ensures Valid() && called && callbackRuns == 1
      ensures callbackRuns == if old(called) then old(callbackRuns) else old(callbackRuns) + 1
    {
      if !called {
        called := true;
        callbackRuns := callbackRuns + 1;
      }
    }
  }

  /** The invert-author handler: the trimmed query split at single
      spaces; the last piece, a comma and a space, then the other pieces
      joined with spaces. */
  function InvertAuthor(query: string): (r: string)
  {
    var words := Split(Trim(query), ' ');
    words[|words| - 1] + ", " + Join(words[..|words| - 1], " ")
  }

  /** The inversion turns one space of the trimmed query into ", ", or,
      when the trimmed query has no space, appends ", ". */
  lemma InvertAuthorLength(query: string)
    ensures var s := Trim(query);
      |InvertAuthor(query)| == |s| + (if ' ' in s then 1 else 2)
  {
    var s := Trim(query);
    var words := Split(s, ' ');
    var n := |words|;
    JoinSplit(s, ' ');
    if n == 1 {
      assert s == words[0];
    } else {
      assert words == words[..n - 1] + [words[n - 1]];
      JoinSnoc(words[..n - 1], words[n - 1], " ");
      assert s == Join(words[..n - 1], " ") + " " + words[n - 1];
      assert s[|Join(words[..n - 1], " ")|] == ' ';
    }
  }

  /** A word here: not empty and without white space. */
  predicate IsWord(w: string)
  {
    |w| > 0 && forall k :: 0 <= k < |w| ==> !IsJsSpace(w[k])
  }

  /** Words "w1 … wn-1 wn" separated by single spaces, with any white
      space around them, become "wn, w1 … wn-1". */
  lemma InvertAuthorWords(before: string, words: seq<string>, after: string)
    requires |words| >= 1 && forall i :: 0 <= i < |words| ==> IsWord(words[i])
    requires AllJsSpace(before) && AllJsSpace(after)
    ensures InvertAuthor(before + Join(words, " ") + after)
      == words[|words| - 1] + ", " + Join(words[..|words| - 1], " ")
  {
    var t := Join(words, " ");
    var last := words[|words| - 1];
    JoinFirst(words, " ");
    JoinLast(words, " ");
    assert t[0] == words[0][0];
    assert t[|t| - 1] == last[|last| - 1];
    TrimAround(before, t, after);
    forall i | 0 <= i < |words|
      ensures ' ' !in words[i]
    {
      assert IsWord(words[i]);
    }
    SplitJoin(words, ' ');
  }
}
