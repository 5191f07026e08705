/** The string operations of Rust's standard library that the CSV and path
    parsers rely on: `split` on a set of characters, `trim`, `lines`,
    `split_once`, `u32::from_str` and the decimal `Display` of integers. */
module Text {
  import opened Basics

  /** `s.split(pattern)` where the pattern is a set of characters: the pieces
      between separators, always at least one. */
  function Split(s: string, seps: set<char>): (parts: seq<string>)
    ensures |parts| >= 1
  {
    if |s| == 0 then [""]
    else
      var rest := Split(s[1..], seps);
      if s[0] in seps then [""] + rest
      else [[s[0]] + rest[0]] + rest[1..]
  }

  predicate NoneIn(s: string, seps: set<char>)
  {
    forall i :: 0 <= i < |s| ==> s[i] !in seps
  }

  /** A piece without separators splits into itself. */
  lemma {:induction false} SplitNoSep(s: string, seps: set<char>)
    requires NoneIn(s, seps)
    ensures Split(s, seps) == [s]
  {
    if |s| > 0 {
      SplitNoSep(s[1..], seps);
      assert [s[0]] + s[1..] == s;
    }
  }

  /** Splitting at one separator splits the two sides independently. */
  lemma {:induction false} SplitConcat(a: string, c: char, b: string, seps: set<char>)
    requires c in seps
    ensures Split(a + [c] + b, seps) == Split(a, seps) + Split(b, seps)
  {
    var s := a + [c] + b;
    if |a| == 0 {
      assert s[1..] == b;
    } else {
      assert s[0] == a[0] && s[1..] == a[1..] + [c] + b;
      SplitConcat(a[1..], c, b, seps);
      if a[0] !in seps {
        ConsPiece(a[0], Split(a[1..], seps), Split(b, seps));
      }
    }
  }

  /** Prepending a character to the first piece commutes with appending
      further pieces. */
  lemma ConsPiece(ch: char, ra: seq<string>, rb: seq<string>)
    requires |ra| >= 1
    ensures [[ch] + (ra + rb)[0]] + (ra + rb)[1..] == ([[ch] + ra[0]] + ra[1..]) + rb
  {
    assert (ra + rb)[1..] == ra[1..] + rb;
  }

  /** Rust's `char::is_whitespace`: the Unicode White_Space property. */
  predicate IsWhitespace(c: char)
  {
    var n := c as int;
    (9 <= n <= 13) || n == 0x20 || n == 0x85 || n == 0xA0 || n == 0x1680
    || (0x2000 <= n <= 0x200A) || n == 0x2028 || n == 0x2029 || n == 0x202F
    || n == 0x205F || n == 0x3000
  }

  /** `str::trim_start`: drops the leading whitespace and nothing else. */
  function TrimStart(s: string): (r: string)
    ensures |r| <= |s| && r == s[|s| - |r|..]
    ensures |r| > 0 ==> !IsWhitespace(r[0])
    ensures forall i :: 0 <= i < |s| - |r| ==> IsWhitespace(s[i])
  {
    if |s| > 0 && IsWhitespace(s[0]) then TrimStart(s[1..]) else s
  }

  /** `str::trim_end`: drops the trailing whitespace and nothing else. */
  function TrimEnd(s: string): (r: string)
    ensures |r| <= |s| && r == s[..|r|]
    ensures |r| > 0 ==> !IsWhitespace(r[|r| - 1])
    ensures forall i :: |r| <= i < |s| ==> IsWhitespace(s[i])
  {
    if |s| > 0 && IsWhitespace(s[|s| - 1]) then TrimEnd(s[..|s| - 1]) else s
  }

  /** `str::trim`. */
  function Trim(s: string): string
  {
    TrimEnd(TrimStart(s))
  }

  /** A string that has no whitespace at either end is its own trim. */
  lemma TrimNoWhitespace(s: string)
    requires |s| > 0 ==> !IsWhitespace(s[0]) && !IsWhitespace(s[|s| - 1])
    ensures Trim(s) == s
  {
  }

  /** A non-blank first character survives `trim_end`. */
  lemma {:induction false} TrimEndKeepsFirst(s: string)
    requires |s| > 0 && !IsWhitespace(s[0])
    ensures |TrimEnd(s)| > 0 && TrimEnd(s)[0] == s[0]
  {
    if IsWhitespace(s[|s| - 1]) {
      TrimEndKeepsFirst(s[..|s| - 1]);
    }
  }

  /** `str::split_once(c)`: the text before and after the first `c`. */
  function SplitOnce(s: string, c: char): (r: Option<(string, string)>)
    ensures r.None? <==> c !in s
    ensures r.Some? ==> s == r.value.0 + [c] + r.value.1 && c !in r.value.0
  {
    if |s| == 0 then None
    else if s[0] == c then Some(([], s[1..]))
    else match SplitOnce(s[1..], c)
      case None => None
      case Some(p) => Some(([s[0]] + p.0, p.1))
  }

  /** `split_once` stops at the first occurrence. */
  lemma {:induction false} SplitOnceFirst(pre: string, c: char, post: string)
    requires c !in pre
    ensures SplitOnce(pre + [c] + post, c) == Some((pre, post))
  {
    var s := pre + [c] + post;
    if pre == [] {
      assert s[1..] == post;
    } else {
      assert s[0] == pre[0] && s[1..] == pre[1..] + [c] + post;
      SplitOnceFirst(pre[1..], c, post);
      assert [pre[0]] + pre[1..] == pre;
    }
  }

  function StripCR(l: string): string
  {
    if |l| > 0 && l[|l| - 1] == '\r' then l[..|l| - 1] else l
  }

  /** `str::lines`: pieces between `\n`, each stripped of one `\r` before its
      `\n`; a final `\n` does not start an extra empty line. */
  function Lines(s: string): seq<string>
  {
    if s == [] then []
    else
      var p := Split(s, {'\n'});
      var body := seq(|p| - 1, i requires 0 <= i < |p| - 1 => StripCR(p[i]));
      if p[|p| - 1] == "" then body else body + [p[|p| - 1]]
  }

  /** Each line followed by `\n`, as a sequence of `writeln!` calls writes it. */
  function JoinLines(ls: seq<string>): string
  {
    if ls == [] then [] else JoinLines(ls[..|ls| - 1]) + ls[|ls| - 1] + ['\n']
  }

  /** A well-formed line: no `\n` inside and no `\r` at its end. */
  predicate IsLine(l: string)
  {
    NoneIn(l, {'\n'}) && (|l| > 0 ==> l[|l| - 1] != '\r')
  }

  lemma {:induction false} SplitJoinLines(ls: seq<string>, t: string)
    requires forall i :: 0 <= i < |ls| ==> NoneIn(ls[i], {'\n'})
    requires NoneIn(t, {'\n'})
    ensures Split(JoinLines(ls) + t, {'\n'}) == ls + [t]
  {
    if ls == [] {
      SplitNoSep(t, {'\n'});
      assert JoinLines(ls) + t == t;
    } else {
      var init := ls[..|ls| - 1];
      var l := ls[|ls| - 1];
      SplitJoinLines(init, l);
      assert JoinLines(ls) + t == (JoinLines(init) + l) + ['\n'] + t;
      SplitConcat(JoinLines(init) + l, '\n', t, {'\n'});
      SplitNoSep(t, {'\n'});
      assert init + [l] == ls;
    }
  }

  /** Reading back what was written line by line gives the same lines. */
  lemma LinesOfJoinLines(ls: seq<string>)
    requires forall i :: 0 <= i < |ls| ==> IsLine(ls[i])
    ensures Lines(JoinLines(ls)) == ls
  {
    if ls != [] {
      var s := JoinLines(ls);
      SplitJoinLines(ls, "");
      assert s + "" == s;
      assert |s| > 0 by {
        assert s == JoinLines(ls[..|ls| - 1]) + ls[|ls| - 1] + ['\n'];
      }
      LinesOfSplit(s, ls);
    }
  }

  /** A text that splits into well-formed lines and a final empty piece reads
      as those lines. */
  lemma LinesOfSplit(s: string, ls: seq<string>)
    requires s != [] && Split(s, {'\n'}) == ls + [""]
    requires forall i :: 0 <= i < |ls| ==> IsLine(ls[i])
    ensures Lines(s) == ls
  {
    var p := Split(s, {'\n'});
    var body := seq(|p| - 1, i requires 0 <= i < |p| - 1 => StripCR(p[i]));
    forall i | 0 <= i < |ls|
      ensures body[i] == ls[i]
    {
      assert p[i] == ls[i];
    }
    assert Lines(s) == body;
  }

  predicate IsDigit(c: char)
  {
    '0' <= c <= '9'
  }

  predicate AllDigits(s: string)
  {
    forall i :: 0 <= i < |s| ==> IsDigit(s[i])
  }

  /** The value of a string of decimal digits. */
  function DigitsValue(s: string): nat
    requires AllDigits(s)
  {
    if s == [] then 0 else DigitsValue(s[..|s| - 1]) * 10 + (s[|s| - 1] as int - '0' as int)
  }

  /** `str::parse::<u32>`: an optional `+`, then one or more ASCII digits
      whose value fits in 32 bits. */
  function ParseU32(s: string): (r: Option<nat>)
    ensures r.Some? ==> r.value <= U32_MAX
  {
    var d := if |s| > 0 && s[0] == '+' then s[1..] else s;
    if |d| == 0 || !AllDigits(d) then None
    else if DigitsValue(d) > U32_MAX then None
    else Some(DigitsValue(d))
  }

  function DigitChar(d: nat): (c: char)
    requires d < 10
    ensures IsDigit(c) && c as int - '0' as int == d
  {
    (d + '0' as int) as char
  }

  /** The decimal `Display` of an unsigned integer. */
  function NatToStr(n: nat): (s: string)
    ensures |s| >= 1 && AllDigits(s)
  {
    if n < 10 then [DigitChar(n)] else NatToStr(n / 10) + [DigitChar(n % 10)]
  }

  lemma {:induction false} DigitsOfNatToStr(n: nat)
    ensures DigitsValue(NatToStr(n)) == n
  {
    if n >= 10 {
      DigitsOfNatToStr(n / 10);
      var s := NatToStr(n);
      assert s[..|s| - 1] == NatToStr(n / 10);
    }
  }

  /** Parsing what `Display` printed gives the number back. */
  lemma ParseNatToStr(n: nat)
    requires n <= U32_MAX
    ensures ParseU32(NatToStr(n)) == Some(n)
  {
    DigitsOfNatToStr(n);
  }
}
