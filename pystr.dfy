/**
  The Python `str` operations the server relies on, over Dafny strings
  (sequences of Unicode scalar values): `split` on one character and its
  inverse `join`, `replace`, the whitespace `strip` that `int()` applies to
  its argument, `int(...)` of a string in base 10, and `str(...)` of an
  integer, which is what an f-string writes for `{n}`.
*/
module PyStr {
  import opened Wrappers

  // ------------------------------------------------------------- split, join

  /** `s.split(c)`: the pieces of `s` between occurrences of `c`, in order. */
  function Split(s: string, c: char): (pieces: seq<string>)
    ensures |pieces| >= 1
    decreases |s|
  {
    if |s| == 0 then [""]
    else
      var rest := Split(s[1..], c);
      if s[0] == c then [""] + rest
      else [[s[0]] + rest[0]] + rest[1..]
  }

  /** `c.join(pieces)`. */
  function Join(pieces: seq<string>, c: char): string
    decreases |pieces|
  {
    if |pieces| == 0 then ""
    else if |pieces| == 1 then pieces[0]
    else pieces[0] + [c] + Join(pieces[1..], c)
  }

  /** No piece contains the separator, and there is one piece more than separators. */
  lemma {:induction false} SplitPieces(s: string, c: char)
    ensures forall i :: 0 <= i < |Split(s, c)| ==> c !in Split(s, c)[i]
    ensures |Split(s, c)| == multiset(s)[c] + 1
    decreases |s|
  {
    if |s| > 0 {
      SplitPieces(s[1..], c);
      assert s == [s[0]] + s[1..];
      assert multiset(s) == multiset([s[0]]) + multiset(s[1..]);
      var rest := Split(s[1..], c);
      if s[0] != c {
        var ps := [[s[0]] + rest[0]] + rest[1..];
        forall i | 0 <= i < |ps| ensures c !in ps[i] {
          if i == 0 {
            assert c !in rest[0];
          } else {
            assert ps[i] == rest[i];
          }
        }
      }
    }
  }

  /** Joining the pieces with the separator gives back the string. */
  lemma {:induction false} JoinSplit(s: string, c: char)
    ensures Join(Split(s, c), c) == s
    decreases |s|
  {
    if |s| > 0 {
      JoinSplit(s[1..], c);
      var rest := Split(s[1..], c);
      if s[0] == c {
        assert ([""] + rest)[1..] == rest;
      } else if |rest| > 1 {
        var ps := [[s[0]] + rest[0]] + rest[1..];
        assert ps[1..] == rest[1..];
        assert Join(rest, c) == rest[0] + [c] + Join(rest[1..], c);
        assert s == [s[0]] + s[1..];
      } else {
        assert s == [s[0]] + s[1..];
      }
    }
  }

  lemma {:induction false} SplitWithoutSeparator(x: string, c: char)
    requires c !in x
    ensures Split(x, c) == [x]
    decreases |x|
  {
    if |x| > 0 {
      SplitWithoutSeparator(x[1..], c);
      assert x == [x[0]] + x[1..];
    }
  }

  lemma {:induction false} SplitAtFirstSeparator(x: string, y: string, c: char)
    requires c !in x
    ensures Split(x + [c] + y, c) == [x] + Split(y, c)
    decreases |x|
  {
    var s := x + [c] + y;
    if |x| == 0 {
      assert s[1..] == y;
    } else {
      assert s[1..] == x[1..] + [c] + y;
      SplitAtFirstSeparator(x[1..], y, c);
      assert x == [x[0]] + x[1..];
    }
  }

  /** Splitting what was joined from separator-free pieces gives back the pieces. */
  lemma {:induction false} SplitJoin(xs: seq<string>, c: char)
    requires |xs| >= 1
    requires forall i :: 0 <= i < |xs| ==> c !in xs[i]
    ensures Split(Join(xs, c), c) == xs
    decreases |xs|
  {
    if |xs| == 1 {
      SplitWithoutSeparator(xs[0], c);
    } else {
      SplitJoin(xs[1..], c);
      SplitAtFirstSeparator(xs[0], Join(xs[1..], c), c);
      assert xs == [xs[0]] + xs[1..];
    }
  }

  // ------------------------------------------------------------- contains, replace

  /** `pat in s`. */
  predicate Contains(s: string, pat: string)
    decreases |s|
  {
    if |s| < |pat| then false
    else if s[..|pat|] == pat then true
    else |s| > 0 && Contains(s[1..], pat)
  }

  /** `s.replace(pat, rep)`: every occurrence of `pat`, found scanning left to
      right without overlap, replaced by `rep`. */
  function Replace(s: string, pat: string, rep: string): string
    requires |pat| > 0
    decreases |s|
  {
    if |s| < |pat| then s
    else if s[..|pat|] == pat then rep + Replace(s[|pat|..], pat, rep)
    else [s[0]] + Replace(s[1..], pat, rep)
  }

  /** The number of occurrences `Replace` replaces (`s.count(pat)`). */
  function Count(s: string, pat: string): nat
    requires |pat| > 0
    decreases |s|
  {
    if |s| < |pat| then 0
    else if s[..|pat|] == pat then 1 + Count(s[|pat|..], pat)
    else Count(s[1..], pat)
  }

  lemma MulSuccLeft(c: int, d: int)
    ensures (1 + c) * d == d + c * d
  {
  }

  /** Each replacement changes the length by the difference of the two lengths. */
  lemma {:induction false} ReplaceLength(s: string, pat: string, rep: string)
    requires |pat| > 0
    ensures |Replace(s, pat, rep)| == |s| + Count(s, pat) * (|rep| - |pat|)
    decreases |s|
  {
    if |s| >= |pat| {
      if s[..|pat|] == pat {
        ReplaceLength(s[|pat|..], pat, rep);
        MulSuccLeft(Count(s[|pat|..], pat), |rep| - |pat|);
      } else {
        ReplaceLength(s[1..], pat, rep);
      }
    }
  }

  lemma {:induction false} ContainsCounted(s: string, pat: string)
    requires |pat| > 0 && Contains(s, pat)
    ensures Count(s, pat) >= 1
    decreases |s|
  {
    if s[..|pat|] != pat {
      ContainsCounted(s[1..], pat);
    }
  }

  lemma {:induction false} ReplaceAbsent(s: string, pat: string, rep: string)
    requires |pat| > 0 && !Contains(s, pat)
    ensures Replace(s, pat, rep) == s
    decreases |s|
  {
    if |s| >= |pat| {
      ReplaceAbsent(s[1..], pat, rep);
      assert s == [s[0]] + s[1..];
    }
  }

  lemma {:induction false} ReplaceByItself(s: string, pat: string)
    requires |pat| > 0
    ensures Replace(s, pat, pat) == s
    decreases |s|
  {
    if |s| >= |pat| {
      if s[..|pat|] == pat {
        ReplaceByItself(s[|pat|..], pat);
        assert s == s[..|pat|] + s[|pat|..];
      } else {
        ReplaceByItself(s[1..], pat);
        assert s == [s[0]] + s[1..];
      }
    }
  }

  lemma {:induction false} ReplaceSameLengthChanges(s: string, pat: string, rep: string)
    requires |pat| > 0 && |rep| == |pat| && rep != pat
    requires Replace(s, pat, rep) == s
    ensures !Contains(s, pat)
    decreases |s|
  {
    if |s| >= |pat| {
      assert (rep + Replace(s[|pat|..], pat, rep))[..|rep|] == rep;
      assert s[..|pat|] != pat;
      assert s == [s[0]] + s[1..];
      ReplaceSameLengthChanges(s[1..], pat, rep);
    }
  }

  lemma ProductNonZero(c: int, d: int)
    requires c >= 1 && d != 0
    ensures c * d != 0
  {
    if d > 0 {
      assert c * d >= d;
    } else {
      assert c * d <= d;
    }
  }

  /** Replacing a pattern that occurs by something else changes the string. */
  lemma ReplaceChanges(s: string, pat: string, rep: string)
    requires |pat| > 0 && Contains(s, pat) && rep != pat
    ensures Replace(s, pat, rep) != s
  {
    if |rep| == |pat| {
      if Replace(s, pat, rep) == s {
        ReplaceSameLengthChanges(s, pat, rep);
      }
    } else {
      ReplaceLength(s, pat, rep);
      ContainsCounted(s, pat);
      ProductNonZero(Count(s, pat), |rep| - |pat|);
    }
  }

  /** A replacement leaves the string unchanged exactly when the pattern does
      not occur in it, or is replaced by itself. */
  lemma ReplaceUnchanged(s: string, pat: string, rep: string)
    requires |pat| > 0
    ensures Replace(s, pat, rep) == s <==> !Contains(s, pat) || rep == pat
  {
    if !Contains(s, pat) {
      ReplaceAbsent(s, pat, rep);
    } else if rep == pat {
      ReplaceByItself(s, pat);
    } else {
      ReplaceChanges(s, pat, rep);
    }
  }

  /** No proper non-empty prefix of `pat` is also a suffix of it, so two
      occurrences of `pat` can never overlap. */
  predicate Unbordered(pat: string)
  {
    forall j :: 0 < j < |pat| ==> pat[j..] != pat[..|pat| - j]
  }

  lemma ContainsTail(s: string, pat: string)
    requires |s| > 0 && !Contains(s, pat)
    ensures !Contains(s[1..], pat)
  {
  }

  /** An unbordered pattern after a stem that lacks it does not start the string. */
  lemma SuffixNotAtStart(stem: string, pat: string)
    requires |pat| > 0 && Unbordered(pat) && !Contains(stem, pat) && |stem| > 0
    ensures (stem + pat)[..|pat|] != pat
  {
    var s := stem + pat;
    if |stem| >= |pat| {
      assert s[..|pat|] == stem[..|pat|];
    } else {
      var j := |stem|;
      assert s[..|pat|] == stem + pat[..|pat| - j];
      assert pat[j..] != pat[..|pat| - j];
      assert (stem + pat[..|pat| - j])[j..] == pat[..|pat| - j];
    }
  }

  /** `replace` at an occurrence: the replacement, then the rest replaced. */
  lemma ReplaceAtStart(pat: string, rest: string, rep: string)
    requires |pat| > 0
    ensures Replace(pat + rest, pat, rep) == rep + Replace(rest, pat, rep)
  {
    var s := pat + rest;
    assert s[..|pat|] == pat && s[|pat|..] == rest;
  }

  /** `replace` where no occurrence starts: the first character kept. */
  lemma ReplaceCons(c: char, m: string, pat: string, rep: string)
    requires 0 < |pat| <= |m| + 1 && ([c] + m)[..|pat|] != pat
    ensures Replace([c] + m, pat, rep) == [c] + Replace(m, pat, rep)
  {
    var s := [c] + m;
    assert s[0] == c && s[1..] == m;
  }

  /** One character of the stem, where no occurrence starts, is kept in front
      of what `replace` makes of the rest. */
  lemma ReplaceAfterStemStep(stem: string, pat: string, rest: string, rep: string)
    requires |pat| > 0 && |stem| > 0 && (stem + pat)[..|pat|] != pat
    requires Replace(stem[1..] + pat + rest, pat, rep) == stem[1..] + rep + Replace(rest, pat, rep)
    ensures Replace(stem + pat + rest, pat, rep) == stem + rep + Replace(rest, pat, rep)
  {
    var m := stem[1..] + pat + rest;
    var tail := Replace(rest, pat, rep);
    assert stem + pat + rest == [stem[0]] + m;
    assert ([stem[0]] + m)[..|pat|] == (stem + pat)[..|pat|];
    ReplaceCons(stem[0], m, pat, rep);
    assert stem + rep + tail == [stem[0]] + (stem[1..] + rep + tail);
  }

  /** The first occurrence of an unbordered `pat` after a stem that lacks it
      is replaced, and `replace` goes on with what follows. */
  lemma {:induction false} ReplaceAfterStem(stem: string, pat: string, rest: string, rep: string)
    requires |pat| > 0 && Unbordered(pat) && !Contains(stem, pat)
    ensures Replace(stem + pat + rest, pat, rep) == stem + rep + Replace(rest, pat, rep)
    decreases |stem|
  {
    if |stem| == 0 {
      ReplaceAtStart(pat, rest, rep);
      assert stem + pat + rest == pat + rest;
      assert stem + rep + Replace(rest, pat, rep) == rep + Replace(rest, pat, rep);
    } else {
      SuffixNotAtStart(stem, pat);
      ContainsTail(stem, pat);
      ReplaceAfterStem(stem[1..], pat, rest, rep);
      ReplaceAfterStemStep(stem, pat, rest, rep);
    }
  }

  /** When `pat` occurs only as the suffix, `replace` swaps that suffix for `rep`. */
  lemma ReplaceSuffix(stem: string, pat: string, rep: string)
    requires |pat| > 0 && Unbordered(pat) && !Contains(stem, pat)
    ensures Replace(stem + pat, pat, rep) == stem + rep
  {
    ReplaceAfterStem(stem, pat, [], rep);
    assert stem + pat + [] == stem + pat;
    assert Replace([], pat, rep) == [];
  }

  /** A string contains every part of a concatenation it is built from. */
  lemma {:induction false} ContainsMiddle(x: string, pat: string, y: string)
    ensures Contains(x + pat + y, pat)
    decreases |x|
  {
    var s := x + pat + y;
    if |x| == 0 {
      assert s[..|pat|] == pat;
    } else if s[..|pat|] != pat {
      ContainsMiddle(x[1..], pat, y);
      assert s[1..] == x[1..] + pat + y;
    }
  }

  /** Equal strings `pre + x + post` and `pre + y + post` have equal middles. */
  lemma FramedEqual(pre: string, x: string, y: string, post: string)
    requires pre + x + post == pre + y + post
    ensures x == y
  {
    var l, r := pre + x + post, pre + y + post;
    assert |x| == |y|;
    assert x == l[|pre|..|pre| + |x|];
    assert y == r[|pre|..|pre| + |y|];
  }

  /** The first character of `sep` first occurs after `pre + x` when `x` lacks it. */
  lemma MarkAfter(pre: string, x: string, sep: string, rest: string)
    requires |sep| > 0 && sep[0] !in x
    ensures (pre + x + sep + rest)[|pre| + |x|] == sep[0]
    ensures forall i :: |pre| <= i < |pre| + |x| ==> (pre + x + sep + rest)[i] != sep[0]
  {
    var l := pre + x + sep + rest;
    forall i | |pre| <= i < |pre| + |x| ensures l[i] != sep[0] {
      assert l[i] == x[i - |pre|];
    }
  }

  /** In `pre + x + sep + y + post`, where `x` holds no first character of
      `sep`, the string determines `x` and `y`. */
  lemma SeparatedEqual(pre: string, x: string, sep: string, y: string, post: string, x2: string, y2: string)
    requires |sep| > 0 && sep[0] !in x && sep[0] !in x2
    requires pre + x + sep + y + post == pre + x2 + sep + y2 + post
    ensures x == x2 && y == y2
  {
    var l, r := pre + x + sep + y + post, pre + x2 + sep + y2 + post;
    MarkAfter(pre, x, sep, y + post);
    MarkAfter(pre, x2, sep, y2 + post);
    assert l == pre + x + sep + (y + post) && r == pre + x2 + sep + (y2 + post);
    assert |x| == |x2|;
    assert x == l[|pre|..|pre| + |x|];
    assert x2 == r[|pre|..|pre| + |x2|];
    FramedEqual(pre + x + sep, y, y2, post);
  }

  // ------------------------------------------------------------- strip

  /** The whitespace `int()` skips around a literal: the ASCII characters
      `\t`, `\n`, `\v`, `\f`, `\r` and space, and every non-ASCII character
      for which `str.isspace()` holds. The ASCII separators U+001C to U+001F,
      which `str.isspace()` accepts, are not skipped: `int()` keeps ASCII
      characters as they are and then skips only ASCII whitespace. */
  predicate IsIntSpace(ch: char)
  {
    || ch == ' ' || '\t' <= ch <= '\r'
    || ch == '\U{0085}' || ch == '\U{00A0}' || ch == '\U{1680}'
    || '\U{2000}' <= ch <= '\U{200A}' || ch == '\U{2028}' || ch == '\U{2029}'
    || ch == '\U{202F}' || ch == '\U{205F}' || ch == '\U{3000}'
  }

  /** The leading whitespace `int()` skips, removed. */
  function StripLeft(s: string): (r: string)
    ensures |r| <= |s| && r == s[|s| - |r|..]
    ensures r == [] || !IsIntSpace(r[0])
    ensures forall i :: 0 <= i < |s| - |r| ==> IsIntSpace(s[i])
    decreases |s|
  {
    if |s| > 0 && IsIntSpace(s[0]) then StripLeft(s[1..]) else s
  }

  /** The trailing whitespace `int()` skips, removed. */
  function StripRight(s: string): (r: string)
    ensures |r| <= |s| && r == s[..|r|]
    ensures r == [] || !IsIntSpace(r[|r| - 1])
    ensures forall i :: |r| <= i < |s| ==> IsIntSpace(s[i])
    decreases |s|
  {
    if |s| > 0 && IsIntSpace(s[|s| - 1]) then StripRight(s[..|s| - 1]) else s
  }

  /** The surrounding whitespace `int()` skips, removed. */
  function Strip(s: string): string
  {
    StripRight(StripLeft(s))
  }

  /** Leading whitespace is removed up to the first other character. */
  lemma {:induction false} StripLeftPadding(pre: string, rest: string)
    requires forall i :: 0 <= i < |pre| ==> IsIntSpace(pre[i])
    requires rest == [] || !IsIntSpace(rest[0])
    ensures StripLeft(pre + rest) == rest
    decreases |pre|
  {
    if |pre| > 0 {
      assert (pre + rest)[0] == pre[0];
      assert (pre + rest)[1..] == pre[1..] + rest;
      StripLeftPadding(pre[1..], rest);
    } else {
      assert pre + rest == rest;
    }
  }

  /** Trailing whitespace is removed back to the last other character. */
  lemma {:induction false} StripRightPadding(rest: string, post: string)
    requires forall i :: 0 <= i < |post| ==> IsIntSpace(post[i])
    requires rest == [] || !IsIntSpace(rest[|rest| - 1])
    ensures StripRight(rest + post) == rest
    decreases |post|
  {
    if |post| > 0 {
      var m := |post| - 1;
      assert (rest + post)[|rest + post| - 1] == post[m];
      assert (rest + post)[..|rest + post| - 1] == rest + post[..m];
      StripRightPadding(rest, post[..m]);
    } else {
      assert rest + post == rest;
    }
  }

  /** Stripping removes exactly the whitespace padding around a core that
      does not itself start or end with whitespace. */
  lemma StripPadding(pre: string, core: string, post: string)
    requires forall i :: 0 <= i < |pre| ==> IsIntSpace(pre[i])
    requires forall i :: 0 <= i < |post| ==> IsIntSpace(post[i])
    requires core == [] || (!IsIntSpace(core[0]) && !IsIntSpace(core[|core| - 1]))
    ensures Strip(pre + core + post) == core
  {
    if core == [] {
      var pad := pre + post;
      forall i | 0 <= i < |pad| ensures IsIntSpace(pad[i]) {
        if i < |pre| { assert pad[i] == pre[i]; } else { assert pad[i] == post[i - |pre|]; }
      }
      StripLeftPadding(pad, []);
      assert pre + core + post == pad + [];
    } else {
      assert (core + post)[0] == core[0];
      StripLeftPadding(pre, core + post);
      assert pre + core + post == pre + (core + post);
      StripRightPadding(core, post);
    }
  }

  // ------------------------------------------------------------- int(), str()

  predicate IsDigit(ch: char)
  {
    '0' as int <= ch as int <= '9' as int
  }

  function DigitChar(d: nat): (ch: char)
    requires d < 10
    ensures IsDigit(ch) && (ch as int) - ('0' as int) == d
  {
    (('0' as int) + d) as char
  }

  /** The digits of a base-10 `int()` literal: ASCII digits in groups
      separated by single underscores (`1_000`). */
  predicate IsDigitGroups(b: string)
  {
    && |b| > 0 && IsDigit(b[0]) && IsDigit(b[|b| - 1])
    && (forall i :: 0 <= i < |b| ==> IsDigit(b[i]) || b[i] == '_')
    && (forall i :: 0 <= i < |b| - 1 ==> b[i] == '_' ==> b[i + 1] != '_')
  }

  /** The value of a string of digits, underscores not counting as digits. */
  function LiteralValue(b: string): nat
    requires forall i :: 0 <= i < |b| ==> IsDigit(b[i]) || b[i] == '_'
    decreases |b|
  {
    if |b| == 0 then 0
    else
      var last := b[|b| - 1];
      if last == '_' then LiteralValue(b[..|b| - 1])
      else
        assert IsDigit(b[|b| - 1]);
        10 * LiteralValue(b[..|b| - 1]) + ((last as int) - ('0' as int))
  }

  /** `int(s)` in base 10: surrounding whitespace ignored, an optional sign,
      then the digits; `None` where Python raises `ValueError`. */
  function ParseInt(s: string): (r: Option<int>)
    ensures r.Some? ==> Strip(s) != ""
    ensures r.Some? && '-' !in s ==> r.value >= 0
  {
    var t := Strip(s);
    assert t == StripLeft(s)[..|t|];
    if |t| > 0 && (t[0] == '+' || t[0] == '-') then
      var body := t[1..];
      if IsDigitGroups(body) then
        var v: int := LiteralValue(body);
        Some(if t[0] == '-' then -v else v)
      else None
    else if IsDigitGroups(t) then Some(LiteralValue(t))
    else None
  }

  /** Whitespace around an unsigned literal does not change what `int()`
      reads. */
  lemma ParseIntOfPadded(pre: string, digits: string, post: string)
    requires forall i :: 0 <= i < |pre| ==> IsIntSpace(pre[i])
    requires forall i :: 0 <= i < |post| ==> IsIntSpace(post[i])
    requires IsDigitGroups(digits)
    ensures ParseInt(pre + digits + post) == Some(LiteralValue(digits))
  {
    StripPadding(pre, digits, post);
  }

  /** An information separator (U+001C to U+001F) before the digits is not
      skipped, so `int()` fails on it. */
  lemma ParseIntRejectsSeparator(sep: char, digits: string)
    requires '\U{001C}' <= sep <= '\U{001F}' && IsDigitGroups(digits)
    ensures ParseInt([sep] + digits) == None
  {
    var s := [sep] + digits;
    assert s[|s| - 1] == digits[|digits| - 1];
    StripUnpadded(s);
    assert !IsDigit(s[0]);
  }

  /** `str(n)` for a natural number. */
  function NatToString(n: nat): string
    decreases n
  {
    if n < 10 then [DigitChar(n)] else NatToString(n / 10) + [DigitChar(n % 10)]
  }

  /** `str(n)` is a non-empty string of decimal digits. */
  lemma {:induction false} NatToStringDigits(n: nat)
    ensures |NatToString(n)| >= 1 && forall i :: 0 <= i < |NatToString(n)| ==> IsDigit(NatToString(n)[i])
    decreases n
  {
    if n >= 10 {
      NatToStringDigits(n / 10);
      var s, t := NatToString(n), NatToString(n / 10);
      assert s == t + [DigitChar(n % 10)];
      forall i | 0 <= i < |s| ensures IsDigit(s[i]) {
        if i < |t| { assert s[i] == t[i]; }
      }
    }
  }

  /** The digits of `str(n)` read back as `n`, and only 0 prints with a leading zero. */
  lemma {:induction false} NatToStringValue(n: nat)
    ensures forall i :: 0 <= i < |NatToString(n)| ==> IsDigit(NatToString(n)[i])
    ensures LiteralValue(NatToString(n)) == n
    ensures |NatToString(n)| >= 1 && (NatToString(n)[0] == '0' <==> n == 0)
    decreases n
  {
    NatToStringDigits(n);
    if n >= 10 {
      NatToStringValue(n / 10);
      var s, t := NatToString(n), NatToString(n / 10);
      assert s[..|s| - 1] == t;
      assert s[0] == t[0];
    }
  }

  /** `str(n)` of a natural number holds no `-`, `_` or `,`. */
  lemma NatToStringPlain(n: nat)
    ensures '-' !in NatToString(n) && '_' !in NatToString(n) && ',' !in NatToString(n)
  {
    NatToStringDigits(n);
  }

  /** `str(i)` for an integer. */
  function IntToString(i: int): string
  {
    if i < 0 then "-" + NatToString(-i) else NatToString(i)
  }

  /** `str(i)` is a `-` exactly for negative `i`, then the digits of `|i|`. */
  lemma IntToStringDigits(i: int)
    ensures var s := IntToString(i);
      && |s| >= 1 && (forall j :: 0 <= j < |s| ==> IsDigit(s[j]) || (j == 0 && s[j] == '-'))
      && (s[0] == '-' <==> i < 0)
      && IsDigit(s[|s| - 1])
  {
    var n: nat := if i < 0 then -i else i;
    NatToStringDigits(n);
    var t := NatToString(n);
    assert i < 0 ==> IntToString(i) == ['-'] + t;
  }

  lemma StripUnpadded(s: string)
    requires |s| > 0 && !IsIntSpace(s[0]) && !IsIntSpace(s[|s| - 1])
    ensures Strip(s) == s
  {
    assert [] + s == s && s + [] == s;
    StripLeftPadding([], s);
    StripRightPadding(s, []);
  }

  lemma DigitsAreGroups(b: string)
    requires |b| > 0 && forall i :: 0 <= i < |b| ==> IsDigit(b[i])
    ensures IsDigitGroups(b)
  {
  }

  /** A literal of digit groups reads as its value, and with a `-` before it
      as the negated value. */
  lemma ParseIntOfLiteral(t: string)
    requires IsDigitGroups(t)
    ensures ParseInt(t) == Some(LiteralValue(t))
    ensures ParseInt(['-'] + t) == Some(-(LiteralValue(t) as int))
  {
    StripUnpadded(t);
    var m := ['-'] + t;
    assert m[|m| - 1] == t[|t| - 1];
    StripUnpadded(m);
    assert m[1..] == t;
  }

  /** `int(str(i)) == i`. */
  lemma ParseIntOfIntToString(i: int)
    ensures ParseInt(IntToString(i)) == Some(i)
  {
    var n: nat := if i < 0 then -i else i;
    NatToStringValue(n);
    var t := NatToString(n);
    DigitsAreGroups(t);
    ParseIntOfLiteral(t);
    if i < 0 {
      assert IntToString(i) == ['-'] + t;
    } else {
      assert IntToString(i) == t;
    }
  }

  /** `int(str(n)) == n` for a natural number. */
  lemma ParseIntOfNatToString(n: nat)
    ensures ParseInt(NatToString(n)) == Some(n)
  {
    ParseIntOfIntToString(n);
  }

  /** Distinct integers print differently. */
  lemma IntToStringInjective(a: int, b: int)
    ensures IntToString(a) == IntToString(b) <==> a == b
  {
    ParseIntOfIntToString(a);
    ParseIntOfIntToString(b);
  }
}
