/** The Option type, used throughout the model for results that can fail.
    `None` stands for the places where the Rust code would panic
    (an `unwrap` of a failed parse, an index out of range, a `usize`
    subtraction below zero). */
module Wrappers {
  datatype Option<+T> = None | Some(value: T)

  /** The values of `opts` when every one is present: the shape of
      collecting an iterator of fallible parses, or of a chain of
      `unwrap`s that panics at the first failure. */
  function AllSome<T>(opts: seq<Option<T>>): (r: Option<seq<T>>)
    ensures r.Some? <==> forall k :: 0 <= k < |opts| ==> opts[k].Some?
    ensures r.Some? ==> (|r.value| == |opts|
      && forall k :: 0 <= k < |opts| ==> opts[k] == Some(r.value[k]))
  {
    if opts == [] then Some([])
    else match (opts[0], AllSome(opts[1..]))
      case (Some(x), Some(xs)) => Some([x] + xs)
      case (None, _) => None
      case (_, None) => None
  }

  /** `f` applied to every element, failing if any application fails. */
  function MapAll<S, T>(xs: seq<S>, f: S -> Option<T>): (r: Option<seq<T>>)
    ensures r.Some? <==> forall k :: 0 <= k < |xs| ==> f(xs[k]).Some?
    ensures r.Some? ==> (|r.value| == |xs|
      && forall k :: 0 <= k < |xs| ==> f(xs[k]) == Some(r.value[k]))
  {
    var opts := seq(|xs|, k requires 0 <= k < |xs| => f(xs[k]));
    assert forall k :: 0 <= k < |xs| ==> opts[k] == f(xs[k]);
    AllSome(opts)
  }
}

/** The parts of Rust's `str` API the puzzle parsers use, stated on
    `string = seq<char>`: `split` and `split_once` on a character or a
    string, `lines`, `trim`, `split_whitespace`, and `parse` for
    unsigned and signed integers (without machine-width overflow,
    except for the explicitly bounded `ParseBounded`). */
module Text {
  import opened Wrappers

  /** Unicode White_Space, the set `char::is_whitespace` tests, as
      inclusive ranges. */
  const WhitespaceRanges: seq<(char, char)> := [
    ('\t', '\r'), (' ', ' '), ('\U{85}', '\U{85}'), ('\U{A0}', '\U{A0}'),
    ('\U{1680}', '\U{1680}'), ('\U{2000}', '\U{200A}'), ('\U{2028}', '\U{2029}'),
    ('\U{202F}', '\U{202F}'), ('\U{205F}', '\U{205F}'), ('\U{3000}', '\U{3000}')]

  predicate InRanges(c: char, ranges: seq<(char, char)>) {
    ranges != [] && (ranges[0].0 <= c <= ranges[0].1 || InRanges(c, ranges[1..]))
  }

  /** `char::is_whitespace`. */
  predicate IsWhitespace(c: char) {
    InRanges(c, WhitespaceRanges)
  }

  predicate IsDigit(c: char) { '0' <= c <= '9' }

  /** `char::to_digit(10)`. */
  function ToDigit(c: char): (r: Option<nat>)
    ensures r.Some? <==> IsDigit(c)
    ensures r.Some? ==> r.value < 10
  {
    if IsDigit(c) then Some(c as int - '0' as int) else None
  }

  function DigitChar(d: nat): (c: char)
    requires d < 10
    ensures IsDigit(c) && ToDigit(c) == Some(d)
  {
    ('0' as int + d) as char
  }

  /** Index of the first occurrence of `c` in `s`. */
  function IndexOf(s: string, c: char): (i: nat)
    requires c in s
    ensures i < |s| && s[i] == c && c !in s[..i]
  {
    if s[0] == c then 0 else 1 + IndexOf(s[1..], c)
  }

  /** `s.split(c)`: the maximal pieces between occurrences of `c`;
      always at least one piece. */
  function Split(s: string, c: char): (pieces: seq<string>)
    ensures |pieces| >= 1
    ensures forall k :: 0 <= k < |pieces| ==> c !in pieces[k]
    decreases |s|
  {
    if c in s then
      var i := IndexOf(s, c);
      [s[..i]] + Split(s[i + 1..], c)
    else
      [s]
  }

  /** The inverse of `Split`: the pieces glued back with `c`. */
  function Join(pieces: seq<string>, c: char): string
    requires |pieces| >= 1
  {
    if |pieces| == 1 then pieces[0] else pieces[0] + [c] + Join(pieces[1..], c)
  }

  lemma {:induction false} JoinSplit(s: string, c: char)
    ensures Join(Split(s, c), c) == s
    decreases |s|
  {
    if c in s {
      var i := IndexOf(s, c);
      var rest := s[i + 1..];
      var pieces := Split(s, c);
      assert pieces == [s[..i]] + Split(rest, c);
      assert pieces[1..] == Split(rest, c);
      assert Join(pieces, c) == s[..i] + [c] + Join(Split(rest, c), c);
      JoinSplit(rest, c);
      assert s == s[..i] + [c] + rest;
    } else {
      assert Split(s, c) == [s];
    }
  }

  lemma {:induction false} SplitJoin(pieces: seq<string>, c: char)
    requires |pieces| >= 1
    requires forall k :: 0 <= k < |pieces| ==> c !in pieces[k]
    ensures Split(Join(pieces, c), c) == pieces
  {
    if |pieces| > 1 {
      var s := Join(pieces, c);
      var i := |pieces[0]|;
      var rest := Join(pieces[1..], c);
      assert s == pieces[0] + [c] + rest;
      assert s[i] == c && s[..i] == pieces[0] && s[i + 1..] == rest;
      IndexOfFirst(s, c, i);
      assert Split(s, c) == [pieces[0]] + Split(rest, c);
      SplitJoin(pieces[1..], c);
      assert pieces == [pieces[0]] + pieces[1..];
    }
  }

  lemma IndexOfFirst(s: string, c: char, i: nat)
    requires i < |s| && s[i] == c && c !in s[..i]
    ensures IndexOf(s, c) == i
  {
  }

  /** `s.split_once(c)`: the text before and after the first `c`. */
  function SplitOnce(s: string, c: char): (r: Option<(string, string)>)
    ensures r.None? <==> c !in s
    ensures r.Some? ==> r.value.0 + [c] + r.value.1 == s && c !in r.value.0
  {
    if c in s then
      var i := IndexOf(s, c);
      assert s == s[..i] + [c] + s[i + 1..];
      Some((s[..i], s[i + 1..]))
    else
      None
  }

  /** True when `pat` occurs in `s` starting at index `i`. */
  predicate OccursAt(s: string, pat: string, i: nat) {
    i + |pat| <= |s| && s[i..i + |pat|] == pat
  }

  /** `s.contains(pat)` for a string pattern. */
  predicate Contains(s: string, pat: string) {
    exists i :: 0 <= i <= |s| && OccursAt(s, pat, i)
  }

  /** Index of the first occurrence of `pat` in `s` at or after `from`. */
  function FindFrom(s: string, pat: string, from: nat): (r: Option<nat>)
    requires from <= |s|
    ensures r.Some? ==> (from <= r.value <= |s| && OccursAt(s, pat, r.value)
      && forall j :: from <= j < r.value ==> !OccursAt(s, pat, j))
    ensures r.None? ==> forall j :: from <= j <= |s| ==> !OccursAt(s, pat, j)
    decreases |s| - from
  {
    if OccursAt(s, pat, from) then Some(from)
    else if from == |s| then None
    else FindFrom(s, pat, from + 1)
  }

  /** `s.split_once(pat)` for a string pattern: the text before the
      first occurrence of `pat` and the text after it. */
  function SplitOnceStr(s: string, pat: string): (r: Option<(string, string)>)
    ensures r.None? <==> !Contains(s, pat)
    ensures r.Some? ==> r.value.0 + pat + r.value.1 == s
    ensures r.Some? ==> forall j :: 0 <= j < |r.value.0| ==> !OccursAt(s, pat, j)
  {
    match FindFrom(s, pat, 0)
    case None => None
    case Some(i) =>
      assert s == s[..i] + s[i..i + |pat|] + s[i + |pat|..];
      Some((s[..i], s[i + |pat|..]))
  }

  /** `s.lines()`: pieces ending at "\n", each with one trailing "\r"
      removed when it stood before that "\n"; a final "\n" does not
      start an empty last line, and the empty string has no lines. */
  function Lines(s: string): (ls: seq<string>)
    ensures forall k :: 0 <= k < |ls| ==> '\n' !in ls[k]
    ensures s == [] <==> ls == []
    decreases |s|
  {
    if s == [] then []
    else if '\n' in s then
      var i := IndexOf(s, '\n');
      var line := s[..i];
      var stripped := if line != [] && line[|line| - 1] == '\r' then line[..|line| - 1] else line;
      assert forall c :: c in stripped ==> c in line;
      [stripped] + Lines(s[i + 1..])
    else
      [s]
  }

  /** Without carriage returns and without a final newline, `lines`
      and `split('\n')` agree. */
  lemma {:induction false} LinesIsSplit(s: string)
    requires s != [] && s[|s| - 1] != '\n' && '\r' !in s
    ensures Lines(s) == Split(s, '\n')
    decreases |s|
  {
    if '\n' in s {
      var i := IndexOf(s, '\n');
      var line := s[..i];
      assert line != [] ==> line[|line| - 1] in s;
      var rest := s[i + 1..];
      assert Lines(s) == [line] + Lines(rest);
      assert Split(s, '\n') == [line] + Split(rest, '\n');
      assert rest != [] by { assert i != |s| - 1; }
      assert rest[|rest| - 1] == s[|s| - 1];
      assert forall c :: c in rest ==> c in s;
      LinesIsSplit(rest);
    } else {
      assert Lines(s) == [s] == Split(s, '\n');
    }
  }

  /** Length of the longest whitespace prefix of `s`. */
  function LeadingWhitespace(s: string): (n: nat)
    ensures n <= |s|
    ensures forall k :: 0 <= k < n ==> IsWhitespace(s[k])
    ensures n < |s| ==> !IsWhitespace(s[n])
  {
    if s != [] && IsWhitespace(s[0]) then 1 + LeadingWhitespace(s[1..]) else 0
  }

  /** Length of the longest whitespace suffix of `s`. */
  function TrailingWhitespace(s: string): (n: nat)
    ensures n <= |s|
    ensures forall k :: |s| - n <= k < |s| ==> IsWhitespace(s[k])
    ensures n < |s| ==> !IsWhitespace(s[|s| - n - 1])
  {
    if s != [] && IsWhitespace(s[|s| - 1]) then 1 + TrailingWhitespace(s[..|s| - 1]) else 0
  }

  /** `s.trim()`: `s` without leading and trailing whitespace. */
  function Trim(s: string): (t: string)
    ensures t != [] ==> !IsWhitespace(t[0]) && !IsWhitespace(t[|t| - 1])
    ensures exists i, j :: (0 <= i <= j <= |s| && t == s[i..j]
      && (forall k :: 0 <= k < i ==> IsWhitespace(s[k]))
      && (forall k :: j <= k < |s| ==> IsWhitespace(s[k])))
  {
    var i := LeadingWhitespace(s);
    var rest := s[i..];
    var j := |rest| - TrailingWhitespace(rest);
    assert rest[..j] == s[i..i + j];
    s[i..i + j]
  }

  /** A non-empty run of characters that are not whitespace. */
  predicate IsWord(w: string) {
    w != [] && forall m :: 0 <= m < |w| ==> !IsWhitespace(w[m])
  }

  /** `s.split_whitespace()`: the maximal runs of non-whitespace. */
  function SplitWhitespace(s: string): (words: seq<string>)
    ensures forall k :: 0 <= k < |words| ==> IsWord(words[k])
    decreases |s|
  {
    var i := LeadingWhitespace(s);
    if i == |s| then []
    else
      var rest := s[i..];
      var n := WordLength(rest);
      var word, more := rest[..n], SplitWhitespace(rest[n..]);
      assert IsWord(word);
      assert forall k :: 1 <= k < 1 + |more| ==> ([word] + more)[k] == more[k - 1];
      [word] + more
  }

  /** Length of the leading non-whitespace run of `s`. */
  function WordLength(s: string): (n: nat)
    ensures n <= |s|
    ensures forall k :: 0 <= k < n ==> !IsWhitespace(s[k])
    ensures n < |s| ==> IsWhitespace(s[n])
    ensures s != [] && !IsWhitespace(s[0]) ==> n > 0
  {
    if s != [] && !IsWhitespace(s[0]) then 1 + WordLength(s[1..]) else 0
  }

  /** Every character of `s` is whitespace. */
  predicate AllWhitespace(s: string) {
    forall k :: 0 <= k < |s| ==> IsWhitespace(s[k])
  }

  /** Words each followed by its separator: `words[0] + seps[0] +
      words[1] + seps[1] + ...`. */
  function Layout(words: seq<string>, seps: seq<string>): string
    requires |seps| == |words|
  {
    if words == [] then [] else words[0] + seps[0] + Layout(words[1..], seps[1..])
  }

  /** Separators that keep words apart: whitespace only, and non-empty
      except possibly after the last word. */
  predicate Separators(words: seq<string>, seps: seq<string>) {
    && |seps| == |words|
    && (forall k :: 0 <= k < |words| ==> IsWord(words[k]) && AllWhitespace(seps[k]))
    && (forall k :: 0 <= k < |words| - 1 ==> seps[k] != [])
  }

  lemma {:induction false} LeadingWhitespaceOf(a: string, b: string)
    requires AllWhitespace(a) && (b != [] ==> !IsWhitespace(b[0]))
    ensures LeadingWhitespace(a + b) == |a|
  {
    if a != [] {
      assert (a + b)[1..] == a[1..] + b;
      LeadingWhitespaceOf(a[1..], b);
    }
  }

  lemma {:induction false} WordLengthOf(w: string, b: string)
    requires forall k :: 0 <= k < |w| ==> !IsWhitespace(w[k])
    requires b != [] ==> IsWhitespace(b[0])
    ensures WordLength(w + b) == |w|
  {
    if w != [] {
      assert (w + b)[1..] == w[1..] + b;
      WordLengthOf(w[1..], b);
    }
  }

  /** After leading whitespace, `split_whitespace` takes the word up to
      the next whitespace and goes on from there. */
  lemma SplitWhitespaceFirst(lead: string, w: string, tail: string)
    requires AllWhitespace(lead) && IsWord(w) && (tail != [] ==> IsWhitespace(tail[0]))
    ensures SplitWhitespace(lead + (w + tail)) == [w] + SplitWhitespace(tail)
  {
    var s := lead + (w + tail);
    assert (w + tail)[0] == w[0];
    LeadingWhitespaceOf(lead, w + tail);
    var rest := s[|lead|..];
    assert rest == w + tail;
    WordLengthOf(w, tail);
    assert rest[..|w|] == w && rest[|w|..] == tail;
  }

  /** Words laid out between runs of whitespace split back to those
      words: whatever whitespace leads, separates or trails them,
      `split_whitespace` finds exactly the words, in order. */
  lemma {:induction false} SplitWhitespaceLayout(lead: string, words: seq<string>, seps: seq<string>)
    requires AllWhitespace(lead) && Separators(words, seps)
    ensures SplitWhitespace(lead + Layout(words, seps)) == words
    decreases |words|
  {
    if words == [] {
      assert lead + Layout(words, seps) == lead + [];
      LeadingWhitespaceOf(lead, []);
    } else {
      var w, sep, later := words[0], seps[0], Layout(words[1..], seps[1..]);
      assert lead + Layout(words, seps) == lead + (w + (sep + later));
      assert sep + later != [] ==> (sep + later)[0] == sep[0];
      SplitWhitespaceFirst(lead, w, sep + later);
      SeparatorsTail(words, seps);
      SplitWhitespaceLayout(sep, words[1..], seps[1..]);
      assert words == [w] + words[1..];
    }
  }

  lemma SeparatorsTail(words: seq<string>, seps: seq<string>)
    requires Separators(words, seps) && words != []
    ensures Separators(words[1..], seps[1..]) && AllWhitespace(seps[0])
    ensures seps[0] == [] ==> Layout(words[1..], seps[1..]) == []
  {
    forall k | 0 <= k < |words| - 1 ensures words[1..][k] == words[k + 1] && seps[1..][k] == seps[k + 1] {}
    assert IsWord(words[0]) && AllWhitespace(seps[0]);
  }

  /** `s` with its whitespace removed. */
  function Strip(s: string): string {
    if s == [] then [] else (if IsWhitespace(s[0]) then [] else [s[0]]) + Strip(s[1..])
  }

  /** The words of a list joined with nothing between them. */
  function Concat(words: seq<string>): string {
    if words == [] then [] else words[0] + Concat(words[1..])
  }

  lemma {:induction false} StripAppend(a: string, b: string)
    ensures Strip(a + b) == Strip(a) + Strip(b)
  {
    if a == [] {
      assert a + b == b;
    } else {
      assert (a + b)[1..] == a[1..] + b;
      StripAppend(a[1..], b);
    }
  }

  lemma {:induction false} StripAllWhitespace(a: string)
    requires AllWhitespace(a)
    ensures Strip(a) == []
  {
    if a != [] { StripAllWhitespace(a[1..]); }
  }

  lemma {:induction false} StripWord(w: string)
    requires forall k :: 0 <= k < |w| ==> !IsWhitespace(w[k])
    ensures Strip(w) == w
  {
    if w != [] {
      StripWord(w[1..]);
      assert w == [w[0]] + w[1..];
    }
  }

  /** The words of `split_whitespace`, put back together, are the input
      without its whitespace: no character other than whitespace is
      lost, added or moved. */
  lemma {:induction false} SplitWhitespaceConcat(s: string)
    ensures Concat(SplitWhitespace(s)) == Strip(s)
    decreases |s|
  {
    var i := LeadingWhitespace(s);
    assert s == s[..i] + s[i..];
    StripAppend(s[..i], s[i..]);
    StripAllWhitespace(s[..i]);
    if i < |s| {
      var rest := s[i..];
      var n := WordLength(rest);
      assert rest == rest[..n] + rest[n..];
      StripAppend(rest[..n], rest[n..]);
      StripWord(rest[..n]);
      SplitWhitespaceConcat(rest[n..]);
      var words := SplitWhitespace(s);
      assert words == [rest[..n]] + SplitWhitespace(rest[n..]);
      assert words[1..] == SplitWhitespace(rest[n..]);
    } else {
      assert s[i..] == [];
    }
  }

  /** `s.split_once(char::is_whitespace)`: the text before and after the
      first whitespace character. */
  function SplitOnceWhitespace(s: string): (r: Option<(string, string)>)
    ensures r.None? <==> forall k :: 0 <= k < |s| ==> !IsWhitespace(s[k])
    ensures r.Some? ==> (var (a, b) := r.value;
      |a| < |s| && s == a + [s[|a|]] + b && IsWhitespace(s[|a|])
      && forall k :: 0 <= k < |a| ==> !IsWhitespace(a[k]))
  {
    var i := WordLength(s);
    if i == |s| then None
    else
      assert s == s[..i] + [s[i]] + s[i + 1..];
      Some((s[..i], s[i + 1..]))
  }

  /** The value of a sequence of decimal digits, most significant first. */
  function DigitsValue(s: string): nat
    requires forall k :: 0 <= k < |s| ==> IsDigit(s[k])
  {
    if s == [] then 0
    else DigitsValue(s[..|s| - 1]) * 10 + DigitOf(s[|s| - 1])
  }

  function DigitOf(c: char): (d: nat)
    requires IsDigit(c)
    ensures d < 10 && ToDigit(c) == Some(d)
  {
    c as int - '0' as int
  }

  predicate AllDigits(s: string) {
    forall k :: 0 <= k < |s| ==> IsDigit(s[k])
  }

  /** `s.parse::<usize>()`: an optional '+' and then one or more ASCII
      digits; anything else is an error. */
  function ParseNat(s: string): (r: Option<nat>)
    ensures r.Some? <==> ((s != [] && AllDigits(s))
      || (|s| > 1 && s[0] == '+' && AllDigits(s[1..])))
  {
    if s != [] && AllDigits(s) then Some(DigitsValue(s))
    else if |s| > 1 && s[0] == '+' && AllDigits(s[1..]) then Some(DigitsValue(s[1..]))
    else None
  }

  /** `s.parse::<u8>()` and the like: `ParseNat` that also fails when
      the value does not fit below `bound`. */
  function ParseBounded(s: string, bound: nat): (r: Option<nat>)
    ensures r.Some? ==> r.value < bound && ParseNat(s) == r
    ensures ParseNat(s).Some? && ParseNat(s).value < bound ==> r.Some?
  {
    match ParseNat(s)
    case Some(n) => if n < bound then Some(n) else None
    case None => None
  }

  /** `s.parse::<i64>()` (without overflow): an optional sign and one
      or more ASCII digits. */
  function ParseInt(s: string): (r: Option<int>)
    ensures r.Some? && r.value < 0 ==> s != [] && s[0] == '-'
    ensures s != [] && s[0] != '-' ==> r == (match ParseNat(s) case Some(n) => Some(n as int) case None => None)
    ensures s != [] && s[0] == '-' ==>
      r == (if |s| > 1 && AllDigits(s[1..]) then Some(-(DigitsValue(s[1..]) as int)) else None)
  {
    if |s| > 1 && s[0] == '-' && AllDigits(s[1..]) then Some(-(DigitsValue(s[1..]) as int))
    else match ParseNat(s)
      case Some(n) => Some(n)
      case None => None
  }

  /** Decimal rendering of a natural number, no leading zeros. */
  function NatToString(n: nat): (s: string)
    ensures s != [] && AllDigits(s)
    ensures |s| > 1 ==> s[0] != '0'
  {
    if n < 10 then [DigitChar(n)] else NatToString(n / 10) + [DigitChar(n % 10)]
  }

  lemma {:induction false} DigitsValueOfNatToString(n: nat)
    ensures DigitsValue(NatToString(n)) == n
  {
    if n >= 10 {
      var s := NatToString(n);
      assert s[..|s| - 1] == NatToString(n / 10);
      DigitsValueOfNatToString(n / 10);
    }
  }

  /** The decimal text of a number holds digits only. */
  lemma NatToStringHasNo(n: nat, c: char)
    requires !IsDigit(c)
    ensures c !in NatToString(n)
  {
  }

  /** Parsing what `NatToString` prints gives the number back. */
  lemma ParseNatToString(n: nat)
    ensures ParseNat(NatToString(n)) == Some(n)
  {
    DigitsValueOfNatToString(n);
  }

  /** Decimal rendering of an integer, with '-' before a negative one. */
  function IntToString(n: int): string {
    if n < 0 then "-" + NatToString(-n) else NatToString(n)
  }

  /** Parsing what `IntToString` prints gives the integer back. */
  lemma ParseIntToString(n: int)
    ensures ParseInt(IntToString(n)) == Some(n)
  {
    if n < 0 {
      ParseMinusNatToString(-n);
    } else {
      var s := NatToString(n);
      assert IsDigit(s[0]);
      ParseNatToString(n);
    }
  }

  /** `-` followed by the rendering of a positive number parses to its
      negation. */
  lemma ParseMinusNatToString(m: nat)
    requires m > 0
    ensures ParseInt("-" + NatToString(m)) == Some(-(m as int))
  {
    var t := NatToString(m);
    var s := "-" + t;
    assert s[0] == '-' && s[1..] == t;
    DigitsValueOfNatToString(m);
  }

  /** Turns every piece of a list with `parse`; fails if any piece fails,
      as `.map(|x| x.parse().unwrap())` does. */
  function ParseAllNats(pieces: seq<string>): (r: Option<seq<nat>>)
    ensures r.Some? ==> (|r.value| == |pieces|
      && forall k :: 0 <= k < |pieces| ==> ParseNat(pieces[k]) == Some(r.value[k]))
    ensures r.None? ==> exists k :: 0 <= k < |pieces| && ParseNat(pieces[k]).None?
  {
    if pieces == [] then Some([])
    else match (ParseNat(pieces[0]), ParseAllNats(pieces[1..]))
      case (Some(n), Some(ns)) => Some([n] + ns)
      case (None, _) => None
      case (_, None) => None
  }

  /** `ParseAllNats` for signed integers. */
  function ParseAllInts(pieces: seq<string>): (r: Option<seq<int>>)
    ensures r.Some? ==> (|r.value| == |pieces|
      && forall k :: 0 <= k < |pieces| ==> ParseInt(pieces[k]) == Some(r.value[k]))
    ensures r.None? ==> exists k :: 0 <= k < |pieces| && ParseInt(pieces[k]).None?
  {
    if pieces == [] then Some([])
    else match (ParseInt(pieces[0]), ParseAllInts(pieces[1..]))
      case (Some(n), Some(ns)) => Some([n] + ns)
      case (None, _) => None
      case (_, None) => None
  }

  // ---------------------------------------------------------------
  // Runs of digits

  /** The length of the run of digits `s` starts with. */
  function DigitRunLength(s: string): (n: nat)
    ensures n <= |s|
    ensures forall k :: 0 <= k < n ==> IsDigit(s[k])
    ensures n < |s| ==> !IsDigit(s[n])
  {
    if s == [] || !IsDigit(s[0]) then 0 else 1 + DigitRunLength(s[1..])
  }

  /** The values of the maximal runs of digits in `s`, left to right: what
      the `\d+` matches of a regular expression parse to. */
  function DigitRuns(s: string): seq<nat>
    decreases |s|
  {
    if s == [] then []
    else if !IsDigit(s[0]) then DigitRuns(s[1..])
    else
      var n := DigitRunLength(s);
      assert forall k :: 0 <= k < n ==> IsDigit(s[..n][k]);
      [DigitsValue(s[..n])] + DigitRuns(s[n..])
  }

  /** Text without digits adds no run. */
  lemma {:induction false} SkipNonDigits(p: string, s: string)
    requires forall k :: 0 <= k < |p| ==> !IsDigit(p[k])
    ensures DigitRuns(p + s) == DigitRuns(s)
  {
    if p != [] {
      assert (p + s)[0] == p[0];
      assert (p + s)[1..] == p[1..] + s;
      SkipNonDigits(p[1..], s);
    } else {
      assert p + s == s;
    }
  }

  /** A run of digits followed by a non-digit or nothing has its own length. */
  lemma {:induction false} RunLengthOf(d: string, s: string)
    requires AllDigits(d)
    requires s == [] || !IsDigit(s[0])
    ensures DigitRunLength(d + s) == |d|
  {
    if d != [] {
      assert (d + s)[1..] == d[1..] + s;
      RunLengthOf(d[1..], s);
    } else {
      assert d + s == s;
    }
  }

  /** A run of digits followed by a non-digit or nothing is one run with its value. */
  lemma TakeRun(d: string, s: string)
    requires d != [] && AllDigits(d)
    requires s == [] || !IsDigit(s[0])
    ensures DigitRuns(d + s) == [DigitsValue(d)] + DigitRuns(s)
  {
    RunLengthOf(d, s);
    assert (d + s)[..|d|] == d;
    assert (d + s)[|d|..] == s;
  }
}

/** Sums over sequences, shared by the puzzle totals. */
module Sums {
  function Sum(s: seq<int>): int {
    if s == [] then 0 else Sum(s[..|s| - 1]) + s[|s| - 1]
  }

  lemma {:induction false} SumAppend(a: seq<int>, b: seq<int>)
    ensures Sum(a + b) == Sum(a) + Sum(b)
    decreases |b|
  {
    if b != [] {
      assert (a + b)[..|a + b| - 1] == a + b[..|b| - 1];
      SumAppend(a, b[..|b| - 1]);
    } else {
      assert a + b == a;
    }
  }

  lemma {:induction false} SumNonNegative(s: seq<int>)
    requires forall k :: 0 <= k < |s| ==> s[k] >= 0
    ensures Sum(s) >= 0
  {
    if s != [] { SumNonNegative(s[..|s| - 1]); }
  }
}

/** Integer division as Rust's `/` and `%` define it. */
module Ints {
  /** Rust's `/` on integers: the quotient truncated towards zero. */
  function TruncDiv(a: int, b: int): (q: int)
    requires b != 0
    ensures a >= 0 && b > 0 ==> q == a / b
  {
    var q := (if a >= 0 then a else -a) / (if b >= 0 then b else -b);
    if (a >= 0) == (b > 0) then q else -q
  }

  /** Rust's `%`: the remainder that goes with `TruncDiv`. */
  function TruncRem(a: int, b: int): (r: int)
    requires b != 0
    ensures a == b * TruncDiv(a, b) + r
    ensures a >= 0 && b > 0 ==> r == a % b
  {
    a - b * TruncDiv(a, b)
  }

  /** When `b` divides `a` exactly the quotient is the same whichever
      way it is rounded. */
  lemma TruncExact(a: int, b: int, q: int)
    requires b != 0 && a == b * q
    ensures TruncDiv(a, b) == q && TruncRem(a, b) == 0
  {
    var na := (if a >= 0 then a else -a);
    var nb := (if b >= 0 then b else -b);
    var nq := (if q >= 0 then q else -q);
    MulSigns(b, q);
    DivExact(na, nb, nq);
  }

  /** The size and the sign of a product. */
  lemma MulSigns(b: int, q: int)
    requires b != 0
    ensures (if b * q >= 0 then b * q else -(b * q)) == (if b >= 0 then b else -b) * (if q >= 0 then q else -q)
    ensures q > 0 ==> (b * q > 0 <==> b > 0)
    ensures q < 0 ==> (b * q > 0 <==> b < 0)
    ensures q == 0 ==> b * q == 0
  {
    if b > 0 && q > 0 {
      MulAtLeast(b, q);
    } else if b < 0 && q < 0 {
      MulAtLeast(-b, -q);
      assert b * q == (-b) * (-q);
    } else if b > 0 && q < 0 {
      MulAtLeast(b, -q);
      assert b * q == -(b * (-q));
    } else if b < 0 && q > 0 {
      MulAtLeast(-b, q);
      assert b * q == -((-b) * q);
    }
  }

  lemma DivExact(a: nat, b: nat, q: nat)
    requires b > 0 && a == b * q
    ensures a / b == q
  {
    var q', r := a / b, a % b;
    assert a == b * q' + r && 0 <= r < b;
    if q' < q {
      MulAtLeast(b, q - q');
    }
  }

  lemma MulAtLeast(b: nat, k: nat)
    requires k >= 1
    ensures b * k >= b
  {
  }
}

/** Cardinalities of finite sets. */
module Sets {
  lemma SubsetCardinality<T>(u: set<T>, v: set<T>)
    requires u <= v
    ensures |u| <= |v|
  {
    if u != {} {
      var x :| x in u;
      SubsetCardinality(u - {x}, v - {x});
    }
  }

  lemma UnionCardinality<T>(u: set<T>, v: set<T>)
    ensures |u| <= |u + v| <= |u| + |v|
  {
    assert |u + v| + |u * v| == |u| + |v|;
    SubsetCardinality(u, u + v);
  }
}

/** Sums of a function over a finite set, in no particular order. */
module SetSums {
  ghost function SetSum<T>(s: set<T>, f: T -> nat): nat
    decreases s
  {
    if s == {} then 0 else var x :| x in s; f(x) + SetSum(s - {x}, f)
  }

  /** Any element can be taken out first. */
  lemma {:induction false} SetSumRemove<T>(s: set<T>, f: T -> nat, y: T)
    requires y in s
    ensures SetSum(s, f) == f(y) + SetSum(s - {y}, f)
    decreases s
  {
    var x :| x in s && SetSum(s, f) == f(x) + SetSum(s - {x}, f);
    if x != y {
      SetSumRemove(s - {x}, f, y);
      SetSumRemove(s - {y}, f, x);
      assert s - {x} - {y} == s - {y} - {x};
    }
  }

  /** Adding a new element adds its value. */
  lemma SetSumAdd<T>(s: set<T>, f: T -> nat, y: T)
    requires y !in s
    ensures SetSum(s + {y}, f) == SetSum(s, f) + f(y)
  {
    SetSumRemove(s + {y}, f, y);
    assert s + {y} - {y} == s;
  }

  /** The sum over two disjoint sets is the sum of the sums. */
  lemma {:induction false} SetSumUnion<T>(s: set<T>, t: set<T>, f: T -> nat)
    requires s !! t
    ensures SetSum(s + t, f) == SetSum(s, f) + SetSum(t, f)
    decreases t
  {
    if t == {} {
      assert s + t == s;
    } else {
      var y :| y in t;
      SetSumUnion(s, t - {y}, f);
      assert y !in s + (t - {y});
      SetSumAdd(s + (t - {y}), f, y);
      SetSumRemove(t, f, y);
      assert s + (t - {y}) + {y} == s + t;
    }
  }

  /** A pointwise smaller summand gives a smaller sum. */
  lemma {:induction false} SetSumMono<T>(s: set<T>, f: T -> nat, g: T -> nat)
    requires forall x :: x in s ==> f(x) <= g(x)
    ensures SetSum(s, f) <= SetSum(s, g)
    decreases s
  {
    if s != {} {
      var x :| x in s;
      SetSumRemove(s, f, x);
      SetSumRemove(s, g, x);
      SetSumMono(s - {x}, f, g);
    }
  }

  lemma SetSumSame<T>(s: set<T>, f: T -> nat, g: T -> nat)
    requires forall x :: x in s ==> f(x) == g(x)
    ensures SetSum(s, f) == SetSum(s, g)
  {
    SetSumMono(s, f, g);
    SetSumMono(s, g, f);
  }

  lemma {:induction false} SetSumZero<T>(s: set<T>, f: T -> nat)
    requires forall x :: x in s ==> f(x) == 0
    ensures SetSum(s, f) == 0
    decreases s
  {
    if s != {} {
      var x :| x in s;
      SetSumRemove(s, f, x);
      SetSumZero(s - {x}, f);
    }
  }

  /** Elements where the summand is zero can be left out of the sum. */
  lemma SetSumWithin<T>(s: set<T>, t: set<T>, f: T -> nat)
    requires t <= s && forall x :: x in s - t ==> f(x) == 0
    ensures SetSum(s, f) == SetSum(t, f)
  {
    SetSumUnion(t, s - t, f);
    SetSumZero(s - t, f);
    assert t + (s - t) == s;
  }

  /** The sum of a pointwise sum is the sum of the sums. */
  lemma {:induction false} SetSumPlus<T>(s: set<T>, f: T -> nat, g: T -> nat, h: T -> nat)
    requires forall x :: x in s ==> h(x) == f(x) + g(x)
    ensures SetSum(s, h) == SetSum(s, f) + SetSum(s, g)
    decreases s
  {
    if s != {} {
      var x :| x in s;
      SetSumRemove(s, f, x);
      SetSumRemove(s, g, x);
      SetSumRemove(s, h, x);
      SetSumPlus(s - {x}, f, g, h);
    }
  }
}

/** Character grids keyed by `(x, y)` position, as the puzzles that put
    every cell of the input in a hash map build them. */
module Grids {
  /** `(x, y)` with y growing downwards; `i32` in the source. */
  type Point = (int, int)

  /** `m` holds exactly the characters of `lines`, character `x` of line
      `y` under `(x, y)`. */
  ghost predicate IsGridOf(m: map<Point, char>, lines: seq<string>) {
    (forall p :: p in m <==> 0 <= p.1 < |lines| && 0 <= p.0 < |lines[p.1]|)
    && forall p :: p in m ==> m[p] == lines[p.1][p.0]
  }
}
