/** The options an IntersectionObserver of the polyfill in
    keeper/static/keeper/inherit/scripts/unt.js normalises when it is
    built: the threshold list (`_initThresholds`) and the root margin
    (`_parseRootMargin`). */
module IoOptions {
  import opened Wrappers
  import opened Text
  import opened IoGeometry

  // ----- thresholds -----

  /** A value found in the threshold option: a number, NaN, or anything
      else (a string, an object, ...). */
  datatype JsValue = Num(n: real) | NaN | NonNumber

  /** The `threshold` option: absent (or any other falsy value), a single
      value, or an array. */
  datatype ThresholdOption = Absent | Scalar(v: JsValue) | List(items: seq<JsValue>)

  const ThresholdError: string := "threshold must be a number between 0 and 1 inclusively"

  /** `opt_threshold || [0]`, then a non-array wrapped in an array. The
      number 0 and NaN are falsy, so as a single value they give the
      default. */
  function ThresholdItems(opt: ThresholdOption): (r: seq<JsValue>)
    ensures opt.List? ==> r == opt.items
    ensures opt.Scalar? && opt.v != Num(0.0) && opt.v != NaN ==> r == [opt.v]
    ensures opt.Absent? || opt == Scalar(Num(0.0)) || opt == Scalar(NaN) ==> r == [Num(0.0)]
  {
    match opt
    case Absent => [Num(0.0)]
    case Scalar(v) => if v == Num(0.0) || v == NaN then [Num(0.0)] else [v]
    case List(items) => items
  }

  predicate ValidThreshold(v: JsValue)
  {
    v.Num? && 0.0 <= v.n <= 1.0
  }

  predicate Sorted(s: seq<real>)
  {
    forall i, j :: 0 <= i < j < |s| ==> s[i] <= s[j]
  }

  predicate StrictlyIncreasing(s: seq<real>)
  {
    forall i, j :: 0 <= i < j < |s| ==> s[i] < s[j]
  }

  /** The numbers of a list of valid thresholds. */
  function Numbers(items: seq<JsValue>): (r: seq<real>)
    requires forall i :: 0 <= i < |items| ==> items[i].Num?
    ensures |r| == |items| && forall i :: 0 <= i < |items| ==> r[i] == items[i].n
  {
    if |items| == 0 then [] else [items[0].n] + Numbers(items[1..])
  }

  /** `x` placed into a sorted list before the first larger value. */
  function Insert(x: real, s: seq<real>): (r: seq<real>)
    requires Sorted(s)
    ensures Sorted(r) && multiset(r) == multiset(s) + multiset{x}
  {
    if |s| == 0 then [x]
    else if x <= s[0] then [x] + s
    else
      var rest := Insert(x, s[1..]);
      assert s == [s[0]] + s[1..];
      assert multiset(rest) == multiset(s[1..]) + multiset{x};
      assert forall k :: 0 <= k < |rest| ==> s[0] <= rest[k] by {
        forall k | 0 <= k < |rest|
          ensures s[0] <= rest[k]
        {
          assert rest[k] in multiset(rest);
        }
      }
      [s[0]] + rest
  }

  /** The array's `sort()`, in numeric order. */
  function SortNumbers(s: seq<real>): (r: seq<real>)
    ensures Sorted(r) && multiset(r) == multiset(s)
  {
    if |s| == 0 then []
    else
      assert s == [s[0]] + s[1..];
      Insert(s[0], SortNumbers(s[1..]))
  }

  /** The `filter` that keeps a value unless it equals the one before it. */
  function DropRepeats(s: seq<real>): (r: seq<real>)
    ensures |r| <= |s|
    ensures |s| > 0 ==> |r| > 0 && r[|r| - 1] == s[|s| - 1]
  {
    if |s| <= 1 then s
    else
      var init := DropRepeats(s[..|s| - 1]);
      if s[|s| - 1] == s[|s| - 2] then init else init + [s[|s| - 1]]
  }

  /** `_initThresholds`: the items sorted, repeats dropped; any item that is
      not a number between 0 and 1 makes it throw. */
  function InitThresholds(opt: ThresholdOption): Result<seq<real>>
  {
    var items := ThresholdItems(opt);
    if exists i :: 0 <= i < |items| && !ValidThreshold(items[i]) then Throws(ThresholdError)
    else Ok(DropRepeats(SortNumbers(Numbers(items))))
  }

  /** Dropping repeats from a sorted list leaves it strictly increasing and
      with the same values. */
  lemma DropRepeatsOfSorted(s: seq<real>)
    requires Sorted(s)
    ensures StrictlyIncreasing(DropRepeats(s))
    ensures forall x :: x in DropRepeats(s) <==> x in s
  {
    DropRepeatsIncreasing(s);
    DropRepeatsValues(s);
  }

  lemma {:induction false} DropRepeatsIncreasing(s: seq<real>)
    requires Sorted(s)
    ensures StrictlyIncreasing(DropRepeats(s))
  {
    if |s| > 1 {
      var init := s[..|s| - 1];
      var last := s[|s| - 1];
      DropRepeatsIncreasing(init);
      if last != s[|s| - 2] {
        var d := DropRepeats(init);
        var r := d + [last];
        assert d[|d| - 1] == s[|s| - 2] < last;
        forall i, j | 0 <= i < j < |r|
          ensures r[i] < r[j]
        {
          if j == |r| - 1 {
            assert r[i] == d[i] <= d[|d| - 1];
          } else {
            assert r[i] == d[i] && r[j] == d[j];
          }
        }
      }
    }
  }

  lemma {:induction false} DropRepeatsValues(s: seq<real>)
    ensures forall x :: x in DropRepeats(s) <==> x in s
  {
    if |s| > 1 {
      var init := s[..|s| - 1];
      var last := s[|s| - 1];
      DropRepeatsValues(init);
      assert s == init + [last];
      var d := DropRepeats(init);
      assert forall x :: x in s <==> x in init || x == last;
      if last == s[|s| - 2] {
        assert last == init[|init| - 1];
      } else {
        assert forall x :: x in d + [last] <==> x in d || x == last;
      }
    }
  }

  /** The numbers of valid items are the values they carry. */
  lemma NumbersValues(items: seq<JsValue>)
    requires forall i :: 0 <= i < |items| ==> items[i].Num?
    ensures forall x :: x in Numbers(items) <==> Num(x) in items
  {
    var numbers := Numbers(items);
    forall x
      ensures x in numbers <==> Num(x) in items
    {
      if Num(x) in items {
        var i :| 0 <= i < |items| && items[i] == Num(x);
        assert numbers[i] == x;
      }
      if x in numbers {
        var i :| 0 <= i < |numbers| && numbers[i] == x;
        assert items[i] == Num(x);
      }
    }
  }

  /** Sorting keeps the values. */
  lemma SortValues(s: seq<real>)
    ensures forall x :: x in SortNumbers(s) <==> x in s
  {
    var r := SortNumbers(s);
    forall x
      ensures x in r <==> x in s
    {
      assert x in r <==> x in multiset(r);
      assert x in s <==> x in multiset(s);
    }
  }

  /** The error case is exactly an invalid item; otherwise the thresholds
      are strictly increasing numbers between 0 and 1, and they are exactly
      the values supplied. */
  lemma ThresholdsNormalised(opt: ThresholdOption)
    ensures var items := ThresholdItems(opt);
      InitThresholds(opt).Throws? <==> exists i :: 0 <= i < |items| && !ValidThreshold(items[i])
    ensures InitThresholds(opt).Throws? ==> InitThresholds(opt).message == ThresholdError
    ensures InitThresholds(opt).Ok? ==>
      var t := InitThresholds(opt).value;
      StrictlyIncreasing(t)
      && (forall i :: 0 <= i < |t| ==> 0.0 <= t[i] <= 1.0)
      && forall x :: x in t <==> Num(x) in ThresholdItems(opt)
  {
    var items := ThresholdItems(opt);
    if InitThresholds(opt).Ok? {
      var numbers := Numbers(items);
      var sorted := SortNumbers(numbers);
      var t := DropRepeats(sorted);
      assert InitThresholds(opt).value == t;
      DropRepeatsOfSorted(sorted);
      SortValues(numbers);
      NumbersValues(items);
      assert forall x :: x in t <==> Num(x) in items;
      forall i | 0 <= i < |t|
        ensures 0.0 <= t[i] <= 1.0
      {
        assert Num(t[i]) in items;
        var k :| 0 <= k < |items| && items[k] == Num(t[i]);
        assert ValidThreshold(items[k]);
      }
    }
  }

  /** Without an option the thresholds are `[0]`. */
  lemma DefaultThresholds()
    ensures InitThresholds(Absent) == Ok([0.0])
  {
    assert ValidThreshold(Num(0.0));
    assert Numbers([Num(0.0)]) == [0.0];
  }

  /** A list already strictly increasing within 0 and 1 is kept as it is,
      so normalising a normalised list changes nothing. */
  lemma {:induction false} ThresholdsIdempotent(t: seq<real>, items: seq<JsValue>)
    requires StrictlyIncreasing(t) && forall i :: 0 <= i < |t| ==> 0.0 <= t[i] <= 1.0
    requires |items| == |t| && forall i :: 0 <= i < |t| ==> items[i] == Num(t[i])
    ensures InitThresholds(List(items)) == Ok(t)
  {
    forall i | 0 <= i < |items|
      ensures ValidThreshold(items[i])
    {
    }
    assert Numbers(items) == t;
    SortSorted(t);
    DropRepeatsNone(t);
  }

  lemma {:induction false} SortSorted(s: seq<real>)
    requires Sorted(s)
    ensures SortNumbers(s) == s
  {
    if |s| > 0 {
      SortSorted(s[1..]);
      assert SortNumbers(s[1..]) == s[1..];
      assert s == [s[0]] + s[1..];
    }
  }

  lemma {:induction false} DropRepeatsNone(s: seq<real>)
    requires StrictlyIncreasing(s)
    ensures DropRepeats(s) == s
  {
    if |s| > 1 {
      DropRepeatsNone(s[..|s| - 1]);
      assert s[..|s| - 1] + [s[|s| - 1]] == s;
    }
  }

  // ----- root margin -----

  const RootMarginError: string := "rootMargin must be specified in pixels or percent"

  /** `opt_rootMargin || '0px'`. */
  function MarginString(opt: string): string
  {
    if opt == "" then "0px" else opt
  }

  /** The length of the leading run of characters that are not white
      space. */
  function WordLength(s: string): (n: nat)
    ensures n <= |s| && (n < |s| ==> IsJsSpace(s[n]))
    ensures forall i :: 0 <= i < n ==> !IsJsSpace(s[i])
  {
    if |s| == 0 || IsJsSpace(s[0]) then 0 else 1 + WordLength(s[1..])
  }

  /** The length of the leading run of white space. */
  function SpaceLength(s: string): (n: nat)
    ensures n <= |s| && (n < |s| ==> !IsJsSpace(s[n]))
    ensures forall i :: 0 <= i < n ==> IsJsSpace(s[i])
  {
    if |s| == 0 || !IsJsSpace(s[0]) then 0 else 1 + SpaceLength(s[1..])
  }

  /** `s.split(/\s+/)`: the pieces between maximal runs of white space; a
      run at either end gives an empty first or last piece. */
  function SplitSpaces(s: string): (r: seq<string>)
    ensures |r| >= 1
    decreases |s|
  {
    var w := WordLength(s);
    if w == |s| then [s]
    else
      var rest := s[w..];
      [s[..w]] + SplitSpaces(rest[SpaceLength(rest)..])
  }

  /** Splitting words joined by single spaces gives the words back. */
  lemma {:induction false} SplitSpacesJoin(words: seq<string>)
    requires |words| >= 1
    requires forall i :: 0 <= i < |words| ==> words[i] != [] && forall k :: 0 <= k < |words[i]| ==> !IsJsSpace(words[i][k])
    ensures SplitSpaces(Join(words, " ")) == words
  {
    var s := Join(words, " ");
    var w := words[0];
    WordLengthOf(w, if |words| == 1 then "" else " " + Join(words[1..], " "));
    if |words| == 1 {
      assert s == w + "";
    } else {
      var tail := Join(words[1..], " ");
      assert s == w + (" " + tail);
      assert s[|w|..] == " " + tail;
      SplitSpacesJoin(words[1..]);
      assert SpaceLength(" " + tail) == 1 by {
        assert tail[0] == words[1][0];
        assert (" " + tail)[1..] == tail;
      }
      assert (" " + tail)[1..] == tail;
      assert s[..|w|] == w;
    }
  }

  lemma WordLengthOf(w: string, rest: string)
    requires forall k :: 0 <= k < |w| ==> !IsJsSpace(w[k])
    requires rest == [] || IsJsSpace(rest[0])
    ensures WordLength(w + rest) == |w|
  {
    var s := w + rest;
    assert forall k :: 0 <= k < |w| ==> s[k] == w[k];
    assert |w| < |s| ==> s[|w|] == rest[0];
  }

  /** A decimal digit string `\d*\.?\d+`: digits with at most one point,
      not empty and ending in a digit. */
  predicate UnsignedSyntax(u: string)
  {
    |u| >= 1 && IsDigit(u[|u| - 1])
    && (forall i :: 0 <= i < |u| ==> IsDigit(u[i]) || u[i] == '.')
    && (forall i, j :: 0 <= i < j < |u| && u[i] == '.' ==> u[j] != '.')
  }

  function Pow10(k: nat): (p: nat)
    ensures p >= 1
  {
    if k == 0 then 1 else 10 * Pow10(k - 1)
  }

  function PointIndex(u: string): (k: nat)
    ensures k <= |u| && (k < |u| ==> u[k] == '.')
    ensures forall i :: 0 <= i < k ==> u[i] != '.'
  {
    if |u| == 0 || u[0] == '.' then 0 else 1 + PointIndex(u[1..])
  }

  /** `parseFloat` of an unsigned decimal: the whole part plus the
      fraction digits over the matching power of ten. */
  function UnsignedValue(u: string): real
    requires UnsignedSyntax(u)
  {
    var k := PointIndex(u);
    if k == |u| then ParseDigits(u) as real
    else
      var frac := u[k + 1..];
      assert forall i :: 0 <= i < |frac| ==> frac[i] == u[k + 1 + i];
      ParseDigits(u[..k]) as real + ParseDigits(frac) as real / Pow10(|frac|) as real
  }

  /** The number of a margin token, `-?\d*\.?\d+`. */
  function ParseNumber(b: string): Option<real>
  {
    if |b| > 0 && b[0] == '-' then
      (if UnsignedSyntax(b[1..]) then Some(-UnsignedValue(b[1..])) else None)
    else if UnsignedSyntax(b) then Some(UnsignedValue(b))
    else None
  }

  function UnitText(u: Unit): string
  {
    if u == Px then "px" else "%"
  }

  /** One token against `^(-?\d*\.?\d+)(px|%)$`, with its number. */
  function ParseMarginToken(token: string): Option<Margin>
  {
    if |token| >= 2 && token[|token| - 2..] == "px" then
      var n := ParseNumber(token[..|token| - 2]);
      if n.Some? then Some(Margin(n.value, Px)) else None
    else if |token| >= 1 && token[|token| - 1] == '%' then
      var n := ParseNumber(token[..|token| - 1]);
      if n.Some? then Some(Margin(n.value, Percent)) else None
    else None
  }

  /** Every token parsed, or nothing when one of them does not parse. */
  function ParseTokens(tokens: seq<string>): (r: Option<seq<Margin>>)
    ensures r.Some? <==> forall i :: 0 <= i < |tokens| ==> ParseMarginToken(tokens[i]).Some?
    ensures r.Some? ==>
      (|r.value| == |tokens| && forall i :: 0 <= i < |tokens| ==> r.value[i] == ParseMarginToken(tokens[i]).value)
  {
    if |tokens| == 0 then Some([])
    else
      var head := ParseMarginToken(tokens[0]);
      var rest := ParseTokens(tokens[1..]);
      if head.None? then None
      else if rest.None? then
        assert exists i :: 0 <= i < |tokens[1..]| && ParseMarginToken(tokens[1..][i]).None?;
        None
      else Some([head.value] + rest.value)
  }

  /** The shorthand: right defaults to top, bottom to top, left to right. */
  function Shorthand(ms: seq<Margin>): (r: seq<Margin>)
    requires |ms| >= 1
    ensures |r| == if |ms| >= 4 then |ms| else 4
    ensures r[0] == ms[0]
    ensures r[1] == (if |ms| >= 2 then ms[1] else ms[0])
    ensures r[2] == (if |ms| >= 3 then ms[2] else ms[0])
    ensures r[3] == (if |ms| >= 4 then ms[3] else r[1])
    ensures |ms| >= 4 ==> r == ms
  {
    var right := if |ms| >= 2 then ms[1] else ms[0];
    var bottom := if |ms| >= 3 then ms[2] else ms[0];
    var left := if |ms| >= 4 then ms[3] else right;
    if |ms| >= 4 then ms else [ms[0], right, bottom, left]
  }

  /** `_parseRootMargin`: the margin string split at white space, each
      token parsed (or the error thrown), then the shorthand applied. It
      throws exactly when some token is not a px or % number; otherwise the
      top is the first token, the right the second (or the top), the bottom
      the third (or the top), the left the fourth (or the right), and any
      further tokens are kept after them. */
  function ParseRootMargin(opt: string): (r: Result<seq<Margin>>)
    ensures var tokens := SplitSpaces(MarginString(opt));
      r.Ok? <==> forall i :: 0 <= i < |tokens| ==> ParseMarginToken(tokens[i]).Some?
    ensures r.Throws? ==> r.message == RootMarginError
    ensures var tokens := SplitSpaces(MarginString(opt));
      var n := |tokens|;
      r.Ok? ==>
        |r.value| == (if n >= 4 then n else 4)
        && r.value[0] == ParseMarginToken(tokens[0]).value
        && r.value[1] == ParseMarginToken(tokens[if n >= 2 then 1 else 0]).value
        && r.value[2] == ParseMarginToken(tokens[if n >= 3 then 2 else 0]).value
        && r.value[3] == ParseMarginToken(tokens[if n >= 4 then 3 else if n >= 2 then 1 else 0]).value
        && (n >= 4 ==> forall i :: 0 <= i < n ==> r.value[i] == ParseMarginToken(tokens[i]).value)
  {
    var tokens := SplitSpaces(MarginString(opt));
    var parsed := ParseTokens(tokens);
    if parsed.None? then
      assert exists i :: 0 <= i < |SplitSpaces(MarginString(opt))| && ParseMarginToken(SplitSpaces(MarginString(opt))[i]).None?;
      Throws(RootMarginError)
    else Ok(Shorthand(parsed.value))
  }

  /** A whole number of pixels or percent, as written in a margin. */
  function MarginText(n: int, u: Unit): string
  {
    IntToString(n) + UnitText(u)
  }

  /** A written whole-number margin parses back to its value and unit. */
  lemma ParseMarginText(n: int, u: Unit)
    ensures ParseMarginToken(MarginText(n, u)) == Some(Margin(n as real, u))
  {
    var d := IntToString(n);
    var t := MarginText(n, u);
    ParseIntText(n);
    if u == Px {
      assert t[|t| - 2..] == "px";
      assert t[..|t| - 2] == d;
    } else {
      assert t[|t| - 1] == '%';
      assert t[|t| - 2..] != "px";
      assert t[..|t| - 1] == d;
    }
  }

  /** The number of a written integer is that integer. */
  lemma ParseIntText(n: int)
    ensures ParseNumber(IntToString(n)) == Some(n as real)
  {
    var m: nat := if n < 0 then -n else n;
    var digits := NatToString(m);
    UnsignedWhole(digits);
    ParseNatToString(m);
    if n < 0 {
      assert IntToString(n) == "-" + digits;
      assert IntToString(n)[1..] == digits;
    } else {
      assert IntToString(n) == digits;
      assert digits[0] != '-';
    }
  }

  lemma UnsignedWhole(digits: string)
    requires |digits| >= 1 && forall i :: 0 <= i < |digits| ==> IsDigit(digits[i])
    ensures UnsignedSyntax(digits) && PointIndex(digits) == |digits|
    ensures UnsignedValue(digits) == ParseDigits(digits) as real
  {
  }

  /** The default margin is zero pixels on every side. */
  lemma DefaultRootMargin()
    ensures ParseRootMargin("") == Ok([Margin(0.0, Px), Margin(0.0, Px), Margin(0.0, Px), Margin(0.0, Px)])
  {
    ParseMarginText(0, Px);
    assert MarginText(0, Px) == "0px";
    assert WordLength("0px") == 3;
    assert SplitSpaces("0px") == ["0px"];
  }

  /** Whole-number margins written out, one word each. */
  function MarginWords(ms: seq<(int, Unit)>): (r: seq<string>)
    ensures |r| == |ms| && forall i :: 0 <= i < |ms| ==> r[i] == MarginText(ms[i].0, ms[i].1)
  {
    seq(|ms|, i requires 0 <= i < |ms| => MarginText(ms[i].0, ms[i].1))
  }

  /** The margins those words stand for. */
  function MarginValues(ms: seq<(int, Unit)>): (r: seq<Margin>)
    ensures |r| == |ms| && forall i :: 0 <= i < |ms| ==> r[i] == Margin(ms[i].0 as real, ms[i].1)
  {
    seq(|ms|, i requires 0 <= i < |ms| => Margin(ms[i].0 as real, ms[i].1))
  }

  /** Whole-number margins written with single spaces parse back, with
      the missing sides filled in by the shorthand. */
  lemma ParseWrittenMargins(ms: seq<(int, Unit)>)
    requires 1 <= |ms|
    ensures ParseRootMargin(Join(MarginWords(ms), " ")) == Ok(Shorthand(MarginValues(ms)))
  {
    var words := MarginWords(ms);
    forall i | 0 <= i < |words|
      ensures words[i] != [] && forall k :: 0 <= k < |words[i]| ==> !IsJsSpace(words[i][k])
    {
      MarginTextWord(ms[i].0, ms[i].1);
    }
    JoinFirst(words, " ");
    SplitSpacesJoin(words);
    forall i | 0 <= i < |words|
      ensures ParseMarginToken(words[i]) == Some(MarginValues(ms)[i])
    {
      ParseMarginText(ms[i].0, ms[i].1);
    }
    var parsed := ParseTokens(words);
    assert parsed.Some?;
    assert parsed.value == MarginValues(ms);
    var text := Join(words, " ");
    assert |text| >= |words[0]| > 0;
    assert SplitSpaces(MarginString(text)) == words;
  }

  /** A written margin is one word: not empty, without white space. */
  lemma MarginTextWord(n: int, u: Unit)
    ensures MarginText(n, u) != [] && forall k :: 0 <= k < |MarginText(n, u)| ==> !IsJsSpace(MarginText(n, u)[k])
  {
    var d := IntToString(n);
    var w := MarginText(n, u);
    assert d[0] == '-' || IsDigit(d[0]) by {
      if n >= 0 {
        assert d == NatToString(n);
      }
    }
    forall k | 0 <= k < |w|
      ensures !IsJsSpace(w[k])
    {
      if k < |d| {
        assert w[k] == d[k];
      } else {
        assert w[k] == UnitText(u)[k - |d|];
      }
    }
  }
}
