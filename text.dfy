/** String helpers shared by the Python and JavaScript modules: joining and
    splitting on a separator (Python `str.join`/`str.split`, JavaScript
    `Array.join`/`String.split` with a plain string separator), decimal
    rendering of integers (`str(n)`, `String(n)`) and its parser. */
module Text {

  /** `sep.join(parts)`: the parts with `sep` between neighbours. */
  function Join(parts: seq<string>, sep: string): (r: string)
    ensures parts == [] ==> r == ""
  {
    if |parts| == 0 then ""
    else if |parts| == 1 then parts[0]
    else parts[0] + sep + Join(parts[1..], sep)
  }

  /** `s.split(c)` for a one-character separator: the maximal pieces between
      occurrences of `c`, empty pieces included. */
  function Split(s: string, c: char): (r: seq<string>)
    ensures |r| >= 1
  {
    if |s| == 0 then [""]
    else
      var rest := Split(s[1..], c);
      if s[0] == c then [""] + rest else [[s[0]] + rest[0]] + rest[1..]
  }

  /** The text before the first `c` (the whole string if there is none):
      `s.split(c)[0]`. */
  function BeforeFirst(s: string, c: char): string
  {
    Split(s, c)[0]
  }

  predicate StartsWith(s: string, prefix: string)
  {
    |prefix| <= |s| && s[..|prefix|] == prefix
  }

  /** No piece of the split contains the separator, and joining the pieces
      back with it gives the original string. */
  lemma {:induction false} JoinSplit(s: string, c: char)
    ensures Join(Split(s, c), [c]) == s
    ensures forall i :: 0 <= i < |Split(s, c)| ==> c !in Split(s, c)[i]
  {
    if |s| > 0 {
      JoinSplit(s[1..], c);
      var rest := Split(s[1..], c);
      if s[0] == c {
        assert Split(s, c) == [""] + rest;
        assert ([""] + rest)[1..] == rest;
        assert s == [c] + s[1..];
      } else {
        var r := Split(s, c);
        assert r == [[s[0]] + rest[0]] + rest[1..];
        if |rest| == 1 {
          assert s == [s[0]] + rest[0];
        } else {
          assert r[1..] == rest[1..];
          assert Join(rest, [c]) == rest[0] + [c] + Join(rest[1..], [c]);
          assert s == [s[0]] + s[1..];
        }
      }
    }
  }

  /** Splitting `w + [c] + t` where `w` has no `c` yields `w` first. */
  lemma {:induction false} SplitAfterPiece(w: string, c: char, t: string)
    requires c !in w
    ensures Split(w + [c] + t, c) == [w] + Split(t, c)
  {
    if |w| == 0 {
      assert w + [c] + t == [c] + t;
      assert ([c] + t)[1..] == t;
    } else {
      SplitAfterPiece(w[1..], c, t);
      assert (w + [c] + t)[1..] == w[1..] + [c] + t;
      assert [w[0]] + w[1..] == w;
    }
  }

  /** A string without `c` splits into itself. */
  lemma {:induction false} SplitNoSeparator(w: string, c: char)
    requires c !in w
    ensures Split(w, c) == [w]
  {
    if |w| > 0 {
      SplitNoSeparator(w[1..], c);
      assert [w[0]] + w[1..] == w;
    }
  }

  /** Split undoes Join when no part contains the separator. */
  lemma {:induction false} SplitJoin(parts: seq<string>, c: char)
    requires |parts| >= 1
    requires forall i :: 0 <= i < |parts| ==> c !in parts[i]
    ensures Split(Join(parts, [c]), c) == parts
  {
    if |parts| == 1 {
      SplitNoSeparator(parts[0], c);
    } else {
      SplitJoin(parts[1..], c);
      SplitAfterPiece(parts[0], c, Join(parts[1..], [c]));
      assert [parts[0]] + parts[1..] == parts;
    }
  }

  /** Joining a list extended by one element. */
  lemma {:induction false} JoinSnoc(parts: seq<string>, x: string, sep: string)
    requires |parts| >= 1
    ensures Join(parts + [x], sep) == Join(parts, sep) + sep + x
  {
    if |parts| == 1 {
      assert (parts + [x])[1..] == [x];
    } else {
      JoinSnoc(parts[1..], x, sep);
      assert (parts + [x])[1..] == parts[1..] + [x];
    }
  }

  /** Joining two non-empty lists is joining each and putting `sep` between. */
  lemma {:induction false} JoinConcat(a: seq<string>, b: seq<string>, sep: string)
    requires |a| >= 1 && |b| >= 1
    ensures Join(a + b, sep) == Join(a, sep) + sep + Join(b, sep)
  {
    if |a| == 1 {
      assert (a + b)[1..] == b;
    } else {
      JoinConcat(a[1..], b, sep);
      assert (a + b)[1..] == a[1..] + b;
    }
  }

  /** An inner part of a joined list sits between two separators. */
  lemma JoinAround(parts: seq<string>, i: nat, sep: string)
    requires 0 < i < |parts| - 1
    ensures Join(parts, sep) == Join(parts[..i], sep) + (sep + parts[i] + sep) + Join(parts[i + 1..], sep)
  {
    JoinConcat(parts[..i], parts[i..], sep);
    assert parts[..i] + parts[i..] == parts;
    assert parts[i..] == [parts[i]] + parts[i + 1..];
  }

  /** The first piece of `w + [c] + t` is `w` when `w` has no `c`. */
  lemma BeforeFirstOfPiece(w: string, c: char, t: string)
    requires c !in w
    ensures BeforeFirst(w + [c] + t, c) == w
  {
    SplitAfterPiece(w, c, t);
  }

  /** The text before the first separator is a prefix without the separator,
      followed either by nothing or by the separator. */
  lemma {:induction false} BeforeFirstShape(s: string, c: char)
    ensures StartsWith(s, BeforeFirst(s, c))
    ensures c !in BeforeFirst(s, c)
    ensures |BeforeFirst(s, c)| == |s| || s[|BeforeFirst(s, c)|] == c
  {
    if |s| > 0 {
      BeforeFirstShape(s[1..], c);
    }
  }

  // ----- decimal numbers -----

  predicate IsDigit(ch: char)
  {
    '0' <= ch <= '9'
  }

  function DigitChar(d: nat): (ch: char)
    requires d < 10
    ensures IsDigit(ch)
  {
    ['0', '1', '2', '3', '4', '5', '6', '7', '8', '9'][d]
  }

  function DigitValue(ch: char): (d: nat)
    requires IsDigit(ch)
    ensures d < 10
  {
    (ch as int) - ('0' as int)
  }

  /** `str(n)` for a natural number: its shortest decimal representation. */
  function NatToString(n: nat): (r: string)
    ensures |r| >= 1
    ensures forall i :: 0 <= i < |r| ==> IsDigit(r[i])
    ensures r[0] == '0' ==> n == 0
  {
    if n < 10 then [DigitChar(n)] else NatToString(n / 10) + [DigitChar(n % 10)]
  }

  /** `str(i)` / `String(i)` for any integer: a minus sign before negatives. */
  function IntToString(i: int): (r: string)
    ensures |r| >= 1
    ensures r[0] == '-' <==> i < 0
    ensures forall k :: 0 < k < |r| ==> IsDigit(r[k])
  {
    if i < 0 then "-" + NatToString(-i) else NatToString(i)
  }

  /** The value of a string of decimal digits (most significant first). */
  function ParseDigits(s: string): nat
    requires forall i :: 0 <= i < |s| ==> IsDigit(s[i])
  {
    if |s| == 0 then 0 else 10 * ParseDigits(s[..|s| - 1]) + DigitValue(s[|s| - 1])
  }

  lemma DigitRoundTrip(d: nat)
    requires d < 10
    ensures DigitValue(DigitChar(d)) == d
  {
  }

  /** Reading back the rendering of `n` gives `n`. */
  lemma {:induction false} ParseNatToString(n: nat)
    ensures ParseDigits(NatToString(n)) == n
  {
    DigitRoundTrip(n % 10);
    if n >= 10 {
      ParseNatToString(n / 10);
      var s := NatToString(n);
      assert s[..|s| - 1] == NatToString(n / 10);
    }
  }

  /** Rendering is injective. */
  lemma NatToStringInjective(m: nat, n: nat)
    requires NatToString(m) == NatToString(n)
    ensures m == n
  {
    ParseNatToString(m);
    ParseNatToString(n);
  }

  /** `s` padded on the left with `0` up to `width` characters. */
  function PadZeros(s: string, width: nat): (r: string)
    ensures |r| == if |s| >= width then |s| else width
    decreases width - |s|
  {
    if |s| >= width then s else PadZeros("0" + s, width)
  }

  lemma {:induction false} PadZerosOfZero(s: string, width: nat)
    requires forall i :: 0 <= i < |s| ==> s[i] == '0'
    ensures forall i :: 0 <= i < |PadZeros(s, width)| ==> PadZeros(s, width)[i] == '0'
    decreases width - |s|
  {
    if |s| < width {
      PadZerosOfZero("0" + s, width);
    }
  }

  /** A leading zero does not change the value of a digit string. */
  lemma {:induction false} ParseDigitsLeadingZero(s: string)
    requires forall i :: 0 <= i < |s| ==> IsDigit(s[i])
    ensures ParseDigits("0" + s) == ParseDigits(s)
  {
    var z := "0" + s;
    if |s| == 0 {
      assert z[..0] == [];
    } else {
      assert z[..|z| - 1] == "0" + s[..|s| - 1];
      ParseDigitsLeadingZero(s[..|s| - 1]);
    }
  }

  /** Padding a digit string with zeros keeps it a digit string of the same
      value. */
  lemma {:induction false} PadZerosValue(s: string, width: nat)
    requires forall i :: 0 <= i < |s| ==> IsDigit(s[i])
    ensures forall i :: 0 <= i < |PadZeros(s, width)| ==> IsDigit(PadZeros(s, width)[i])
    ensures ParseDigits(PadZeros(s, width)) == ParseDigits(s)
    decreases width - |s|
  {
    if |s| < width {
      ParseDigitsLeadingZero(s);
      PadZerosValue("0" + s, width);
    }
  }

  // ----- infixes -----

  /** `t in s` for strings in Python: `t` occurs somewhere in `s`. */
  ghost predicate IsInfix(t: string, s: string)
  {
    exists i :: OccursAt(t, s, i)
  }

  /** `t` occurs in `s` starting at index `i`. */
  predicate OccursAt(t: string, s: string, i: int)
  {
    0 <= i <= |s| - |t| && s[i..i + |t|] == t
  }

  lemma InfixOfConcat(a: string, t: string, b: string)
    ensures IsInfix(t, a + t + b)
  {
    var s := a + t + b;
    assert OccursAt(t, s, |a|);
  }

  // ----- ASCII case -----

  /** `toLowerCase` on one character, for the ASCII letters. */
  function LowerChar(ch: char): char
  {
    if 'A' <= ch <= 'Z' then (ch as int + 32) as char else ch
  }

  /** `toLowerCase` restricted to ASCII letters (other characters unchanged). */
  function LowerAscii(s: string): (r: string)
    ensures |r| == |s|
  {
    seq(|s|, i requires 0 <= i < |s| => LowerChar(s[i]))
  }

  /** `s.replace(a, b)` with a one-character string pattern: only the first
      occurrence is replaced (JavaScript semantics). */
  function ReplaceFirst(s: string, a: char, b: char): (r: string)
    ensures |r| == |s|
  {
    if |s| == 0 then ""
    else if s[0] == a then [b] + s[1..]
    else [s[0]] + ReplaceFirst(s[1..], a, b)
  }

  /** Exactly the first occurrence changes. */
  lemma {:induction false} ReplaceFirstSpec(s: string, a: char, b: char, w: string, t: string)
    requires s == w + [a] + t && a !in w
    ensures ReplaceFirst(s, a, b) == w + [b] + t
  {
    if |w| == 0 {
      assert s[1..] == t;
    } else {
      assert s[0] == w[0];
      assert s[1..] == w[1..] + [a] + t;
      ReplaceFirstSpec(s[1..], a, b, w[1..], t);
      assert [w[0]] + w[1..] == w;
    }
  }

  lemma {:induction false} ReplaceFirstAbsent(s: string, a: char, b: char)
    requires a !in s
    ensures ReplaceFirst(s, a, b) == s
  {
    if |s| > 0 {
      ReplaceFirstAbsent(s[1..], a, b);
      assert [s[0]] + s[1..] == s;
    }
  }

  // ----- JavaScript white space -----

  /** The characters of the regular-expression class `\s`, which are also
      the ones `String.prototype.trim` removes. */
  predicate IsJsSpace(ch: char)
  {
    ch == ' ' || ch == '\t' || ch == '\n' || ch == '\r' || ch == '\U{000B}' || ch == '\U{000C}'
    || ch == '\U{00A0}' || ch == '\U{1680}' || ('\U{2000}' <= ch <= '\U{200A}') || ch == '\U{2028}' || ch == '\U{2029}'
    || ch == '\U{202F}' || ch == '\U{205F}' || ch == '\U{3000}' || ch == '\U{FEFF}'
  }

  /** `s.trim()`: leading and trailing white space removed. */
  function Trim(s: string): (r: string)
    ensures |r| <= |s|
  {
    TrimEnd(TrimStart(s))
  }

  function TrimStart(s: string): (r: string)
    ensures |r| <= |s|
  {
    if |s| > 0 && IsJsSpace(s[0]) then TrimStart(s[1..]) else s
  }

  function TrimEnd(s: string): (r: string)
    ensures |r| <= |s|
  {
    if |s| > 0 && IsJsSpace(s[|s| - 1]) then TrimEnd(s[..|s| - 1]) else s
  }

  predicate AllJsSpace(s: string)
  {
    forall i :: 0 <= i < |s| ==> IsJsSpace(s[i])
  }

  /** A joined text begins with its first part. */
  lemma {:induction false} JoinFirst(parts: seq<string>, sep: string)
    requires |parts| >= 1
    ensures Join(parts, sep)[..|parts[0]|] == parts[0]
  {
  }

  /** A joined text ends with its last part. */
  lemma JoinLast(parts: seq<string>, sep: string)
    requires |parts| >= 1
    ensures var j := Join(parts, sep);
      |parts[|parts| - 1]| <= |j| && j[|j| - |parts[|parts| - 1]|..] == parts[|parts| - 1]
  {
    var n := |parts|;
    if n > 1 {
      assert parts == parts[..n - 1] + [parts[n - 1]];
      JoinSnoc(parts[..n - 1], parts[n - 1], sep);
    }
  }

  /** Trimming removes exactly the white space around a text that neither
      begins nor ends with white space. */
  lemma TrimAround(before: string, t: string, after: string)
    requires AllJsSpace(before) && AllJsSpace(after)
    requires t == [] || (!IsJsSpace(t[0]) && !IsJsSpace(t[|t| - 1]))
    requires t == [] ==> after == []
    ensures Trim(before + t + after) == t
  {
    TrimStartAround(before, t + after);
    assert before + t + after == before + (t + after);
    TrimEndAround(t, after);
  }

  lemma {:induction false} TrimStartAround(before: string, rest: string)
    requires AllJsSpace(before) && (rest == [] || !IsJsSpace(rest[0]))
    ensures TrimStart(before + rest) == rest
  {
    if |before| > 0 {
      assert (before + rest)[1..] == before[1..] + rest;
      TrimStartAround(before[1..], rest);
    }
  }

  lemma {:induction false} TrimEndAround(t: string, after: string)
    requires AllJsSpace(after) && (t == [] || !IsJsSpace(t[|t| - 1]))
    ensures TrimEnd(t + after) == t
  {
    if |after| > 0 {
      assert (t + after)[..|t + after| - 1] == t + after[..|after| - 1];
      TrimEndAround(t, after[..|after| - 1]);
    } else {
      assert t + after == t;
    }
  }
}
