/** Python string operations the server and client rely on, written as
    functions over `seq<char>`, with the lemmas that connect them:
    `str.split()` (whitespace tokens), `str.split("\n")`, `"\n".join`,
    `str.strip()`, `f"{i}"`, `int(s)` and `file.readlines()`. */
module Text {

  datatype Option<+T> = None | Some(value: T)

  /** Python's `str.isspace` for one character. */
  predicate IsSpace(c: char) {
    c == ' ' || ('\t' <= c <= '\r') || ('\U{1c}' <= c <= '\U{1f}')
    || c == '\U{85}' || c == '\U{a0}' || c == '\U{1680}'
    || ('\U{2000}' <= c <= '\U{200a}') || c == '\U{2028}' || c == '\U{2029}'
    || c == '\U{202f}' || c == '\U{205f}' || c == '\U{3000}'
  }

  /** A non-empty string with no whitespace: what `str.split()` yields. */
  predicate IsToken(s: string) {
    s != [] && forall i :: 0 <= i < |s| ==> !IsSpace(s[i])
  }

  /** A non-empty sequence is its front followed by its last element. */
  lemma InitLast<T>(s: seq<T>)
    requires s != []
    ensures s[..|s| - 1] + [s[|s| - 1]] == s
  {
  }

  // ---------------------------------------------------------------------
  // str.split() with no separator

  /** The longest prefix of `s` without whitespace. */
  function LeadingWord(s: string): (w: string)
    ensures |w| <= |s| && w == s[..|w|]
    ensures forall i :: 0 <= i < |w| ==> !IsSpace(s[i])
    ensures |w| < |s| ==> IsSpace(s[|w|])
  {
    if s == [] || IsSpace(s[0]) then [] else [s[0]] + LeadingWord(s[1..])
  }

  /** `s.split()`: the maximal runs of non-whitespace, in order. */
  function Words(s: string): (r: seq<string>)
    ensures forall i :: 0 <= i < |r| ==> IsToken(r[i])
    decreases |s|
  {
    if s == [] then []
    else if IsSpace(s[0]) then Words(s[1..])
    else
      var w := LeadingWord(s);
      [w] + Words(s[|w|..])
  }

  lemma {:induction false} LeadingWordOfToken(t: string, rest: string)
    requires IsToken(t)
    requires rest == [] || IsSpace(rest[0])
    ensures LeadingWord(t + rest) == t
    decreases |t|
  {
    if |t| > 1 {
      assert (t + rest)[1..] == t[1..] + rest;
      LeadingWordOfToken(t[1..], rest);
    } else {
      assert (t + rest)[1..] == rest;
    }
  }

  /** A token followed by a blank is split off as the first word. */
  lemma WordsCons(t: string, rest: string)
    requires IsToken(t)
    ensures Words(t + " " + rest) == [t] + Words(rest)
  {
    var s := t + " " + rest;
    assert s == t + (" " + rest);
    LeadingWordOfToken(t, " " + rest);
    assert s[|t|..] == " " + rest;
    assert (" " + rest)[1..] == rest;
  }

  // ---------------------------------------------------------------------
  // str.split(c) and c.join(xs)

  /** `s.split(c)` for a one-character separator: never empty, keeps empty
      pieces, and no piece holds the separator. */
  function Split(s: string, c: char): (r: seq<string>)
    ensures |r| >= 1
    ensures forall i :: 0 <= i < |r| ==> c !in r[i]
  {
    if s == [] then [[]]
    else
      var r := Split(s[..|s| - 1], c);
      if s[|s| - 1] == c then r + [[]]
      else r[..|r| - 1] + [r[|r| - 1] + [s[|s| - 1]]]
  }

  /** `c.join(xs)` for a non-empty list. */
  function Join(xs: seq<string>, c: char): string
    requires xs != []
  {
    if |xs| == 1 then xs[0] else Join(xs[..|xs| - 1], c) + [c] + xs[|xs| - 1]
  }

  /** Joining the pieces with the separator gives the text back. */
  lemma {:induction false} JoinSplit(s: string, c: char)
    ensures Join(Split(s, c), c) == s
  {
    if s != [] {
      var init := s[..|s| - 1];
      var r := Split(init, c);
      JoinSplit(init, c);
      assert init + [s[|s| - 1]] == s;
      if s[|s| - 1] != c {
        var r' := r[..|r| - 1] + [r[|r| - 1] + [s[|s| - 1]]];
        assert r'[..|r'| - 1] == r[..|r| - 1];
        if |r| > 1 {
          assert Join(r, c) == Join(r[..|r| - 1], c) + [c] + r[|r| - 1];
        }
      }
    }
  }

  lemma {:induction false} SplitNoSeparator(s: string, c: char)
    requires c !in s
    ensures Split(s, c) == [s]
  {
    if s != [] {
      SplitNoSeparator(s[..|s| - 1], c);
      assert s[..|s| - 1] + [s[|s| - 1]] == s;
    }
  }

  /** Text after the last separator becomes the last piece. */
  lemma {:induction false} SplitSnoc(a: string, b: string, c: char)
    requires c !in b
    ensures Split(a + [c] + b, c) == Split(a, c) + [b]
    decreases |b|
  {
    var s := a + [c] + b;
    if b == [] {
      assert s[..|s| - 1] == a;
    } else {
      var b' := b[..|b| - 1];
      assert s[..|s| - 1] == a + [c] + b';
      SplitSnoc(a, b', c);
      assert b' + [b[|b| - 1]] == b;
    }
  }

  /** A character other than the separator appended to the text ends up
      at the end of the last piece. */
  lemma SplitAppendChar(s: string, ch: char, c: char)
    requires ch != c
    ensures var r := Split(s, c);
      Split(s + [ch], c) == r[..|r| - 1] + [r[|r| - 1] + [ch]]
  {
    assert (s + [ch])[..|s|] == s;
  }

  /** A join of two or more pieces starts with the first piece and a
      separator. */
  lemma {:induction false} JoinFirst(xs: seq<string>, c: char)
    requires |xs| >= 2
    ensures Join(xs, c) == xs[0] + [c] + Join(xs[1..], c)
  {
    if |xs| > 2 {
      var init := xs[..|xs| - 1];
      JoinFirst(init, c);
      assert xs[1..][..|xs| - 2] == init[1..];
    }
  }

  /** Splitting a join of separator-free pieces gives the pieces back. */
  lemma {:induction false} SplitJoin(xs: seq<string>, c: char)
    requires xs != []
    requires forall i :: 0 <= i < |xs| ==> c !in xs[i]
    ensures Split(Join(xs, c), c) == xs
  {
    if |xs| == 1 {
      SplitNoSeparator(xs[0], c);
    } else {
      var init := xs[..|xs| - 1];
      var last := xs[|xs| - 1];
      assert forall i :: 0 <= i < |init| ==> init[i] == xs[i];
      SplitJoin(init, c);
      SplitSnoc(Join(init, c), last, c);
      assert Join(xs, c) == Join(init, c) + [c] + last;
      InitLast(xs);
    }
  }

  // ---------------------------------------------------------------------
  // Line-terminated text and concatenation

  /** The text a loop `out += f"{x}\n"` builds over `xs`. */
  function LinesText(xs: seq<string>): string {
    if xs == [] then [] else LinesText(xs[..|xs| - 1]) + xs[|xs| - 1] + "\n"
  }

  /** Line-terminated text is empty only for no lines, and otherwise ends
      in a newline. */
  lemma LinesTextEnds(xs: seq<string>)
    ensures LinesText(xs) == [] <==> xs == []
    ensures xs != [] ==> LinesText(xs)[|LinesText(xs)| - 1] == '\n'
  {
  }

  /** Line-terminated text is the newline join plus one final newline. */
  lemma {:induction false} LinesTextIsJoin(xs: seq<string>)
    requires xs != []
    ensures LinesText(xs) == Join(xs, '\n') + "\n"
  {
    if |xs| > 1 {
      LinesTextIsJoin(xs[..|xs| - 1]);
    }
  }

  /** Splitting line-terminated text at newlines gives its lines and one
      empty piece after the final newline. */
  lemma SplitLinesText(xs: seq<string>)
    requires forall i :: 0 <= i < |xs| ==> '\n' !in xs[i]
    ensures Split(LinesText(xs), '\n') == xs + [[]]
  {
    if xs == [] {
      assert LinesText(xs) == [];
    } else {
      LinesTextIsJoin(xs);
      SplitJoin(xs, '\n');
      SplitSnoc(Join(xs, '\n'), [], '\n');
      assert Join(xs, '\n') + ['\n'] + [] == LinesText(xs);
    }
  }

  /** `"".join(xs)`. */
  function Concat(xs: seq<string>): string {
    if xs == [] then [] else Concat(xs[..|xs| - 1]) + xs[|xs| - 1]
  }

  /** `io.StringIO(t).readlines()`: pieces that each end just after a
      newline, except possibly the last. */
  function ReadLines(t: string): (r: seq<string>)
    ensures forall i :: 0 <= i < |r| ==> r[i] != []
    ensures forall i :: 0 <= i < |r| - 1 ==> r[i][|r[i]| - 1] == '\n'
  {
    if t == [] then []
    else
      var r := ReadLines(t[..|t| - 1]);
      var ch := t[|t| - 1];
      if r != [] && r[|r| - 1][|r[|r| - 1]| - 1] != '\n' then
        r[..|r| - 1] + [r[|r| - 1] + [ch]]
      else r + [[ch]]
  }

  /** Reading a text as lines and concatenating the lines loses nothing. */
  lemma {:induction false} ConcatReadLines(t: string)
    ensures Concat(ReadLines(t)) == t
  {
    if t != [] {
      var init := t[..|t| - 1];
      var r := ReadLines(init);
      var ch := t[|t| - 1];
      ConcatReadLines(init);
      assert init + [ch] == t;
      if r != [] && r[|r| - 1][|r[|r| - 1]| - 1] != '\n' {
        var r' := r[..|r| - 1] + [r[|r| - 1] + [ch]];
        assert r'[..|r'| - 1] == r[..|r| - 1];
        assert Concat(r) == Concat(r[..|r| - 1]) + r[|r| - 1];
      } else {
        assert (r + [[ch]])[..|r|] == r;
      }
    }
  }

  // ---------------------------------------------------------------------
  // str.strip()

  /** `s.strip()`: drops leading and trailing whitespace. */
  function Strip(s: string): (r: string)
    ensures |r| <= |s|
    ensures r == [] || (!IsSpace(r[0]) && !IsSpace(r[|r| - 1]))
    ensures (forall i :: 0 <= i < |s| ==> !IsSpace(s[i])) ==> r == s
    decreases |s|
  {
    if s == [] then s
    else if IsSpace(s[0]) then Strip(s[1..])
    else if IsSpace(s[|s| - 1]) then Strip(s[..|s| - 1])
    else s
  }

  /** `r` is `s[i..j]` and everything outside `i..j` is whitespace. */
  predicate TrimmedTo(s: string, i: int, j: int, r: string) {
    && 0 <= i <= j <= |s| && r == s[i..j]
    && (forall k :: 0 <= k < i ==> IsSpace(s[k]))
    && (forall k :: j <= k < |s| ==> IsSpace(s[k]))
  }

  /** What `strip` keeps is one slice of `s`: only whitespace is dropped,
      and only from the two ends. */
  lemma {:induction false} StripIsSlice(s: string)
    ensures exists i, j :: TrimmedTo(s, i, j, Strip(s))
    decreases |s|
  {
    if s == [] {
      assert TrimmedTo(s, 0, 0, Strip(s));
    } else if IsSpace(s[0]) {
      StripIsSlice(s[1..]);
      var i, j :| TrimmedTo(s[1..], i, j, Strip(s[1..]));
      TrimFront(s, i, j, Strip(s));
    } else if IsSpace(s[|s| - 1]) {
      StripIsSlice(s[..|s| - 1]);
      var i, j :| TrimmedTo(s[..|s| - 1], i, j, Strip(s[..|s| - 1]));
      TrimBack(s, i, j, Strip(s));
    } else {
      assert TrimmedTo(s, 0, |s|, Strip(s));
    }
  }

  lemma TrimFront(s: string, i: int, j: int, r: string)
    requires s != [] && IsSpace(s[0]) && TrimmedTo(s[1..], i, j, r)
    ensures TrimmedTo(s, i + 1, j + 1, r)
  {
    var t := s[1..];
    assert t[i..j] == s[i + 1..j + 1];
    forall k | 0 <= k < i + 1
      ensures IsSpace(s[k])
    {
      if k > 0 { assert s[k] == t[k - 1]; }
    }
    forall k | j + 1 <= k < |s|
      ensures IsSpace(s[k])
    {
      assert s[k] == t[k - 1];
    }
  }

  lemma TrimBack(s: string, i: int, j: int, r: string)
    requires s != [] && IsSpace(s[|s| - 1]) && TrimmedTo(s[..|s| - 1], i, j, r)
    ensures TrimmedTo(s, i, j, r)
  {
    var t := s[..|s| - 1];
    assert t[i..j] == s[i..j];
    forall k | 0 <= k < i
      ensures IsSpace(s[k])
    {
      assert s[k] == t[k];
    }
    forall k | j <= k < |s|
      ensures IsSpace(s[k])
    {
      if k < |t| { assert s[k] == t[k]; }
    }
  }

  // ---------------------------------------------------------------------
  // Decimal numerals: f"{n}" and int(s)

  predicate IsDigit(c: char) { '0' <= c <= '9' }

  function DigitChar(d: nat): (c: char)
    requires d < 10
    ensures IsDigit(c)
  {
    "0123456789"[d]
  }

  /** `f"{n}"` for a natural number. */
  function NatToString(n: nat): (s: string)
    ensures s != [] && forall i :: 0 <= i < |s| ==> IsDigit(s[i])
  {
    if n < 10 then [DigitChar(n)] else NatToString(n / 10) + [DigitChar(n % 10)]
  }

  /** `f"{i}"` for any integer. */
  function IntToString(i: int): (s: string)
    ensures s != [] && forall k :: 0 <= k < |s| ==> IsDigit(s[k]) || s[k] == '-'
  {
    if i < 0 then "-" + NatToString(-i) else NatToString(i)
  }

  /** Digits with single underscores between digits, as `int()` accepts them. */
  predicate IsDecimalLiteral(s: string) {
    s != [] && IsDigit(s[0]) && IsDigit(s[|s| - 1])
    && (forall i :: 0 <= i < |s| ==> IsDigit(s[i]) || s[i] == '_')
    && forall i :: 0 < i < |s| - 1 ==>
         IsDigit(s[i]) || (s[i] == '_' && IsDigit(s[i - 1]) && IsDigit(s[i + 1]))
  }

  function DigitValue(c: char): (d: nat)
    requires IsDigit(c)
    ensures d < 10
  {
    c as int - '0' as int
  }

  /** The value of a run of digits and underscores, underscores ignored. */
  function DigitsValue(s: string): nat
    requires forall i :: 0 <= i < |s| ==> IsDigit(s[i]) || s[i] == '_'
  {
    if s == [] then 0
    else if s[|s| - 1] == '_' then DigitsValue(s[..|s| - 1])
    else DigitsValue(s[..|s| - 1]) * 10 + DigitValue(s[|s| - 1])
  }

  /** `int(s)` in base 10 for text without surrounding whitespace:
      `None` where Python raises `ValueError`. */
  function ParseInt(s: string): (r: Option<int>)
    ensures r.Some? <==>
      IsDecimalLiteral(s) || (s != [] && (s[0] == '+' || s[0] == '-') && IsDecimalLiteral(s[1..]))
    ensures r.Some? && s[0] == '-' ==> r.value <= 0
    ensures r.Some? && s[0] != '-' ==> r.value >= 0
  {
    if s != [] && (s[0] == '+' || s[0] == '-') then
      if IsDecimalLiteral(s[1..]) then
        var v: int := DigitsValue(s[1..]);
        Some(if s[0] == '-' then -v else v)
      else None
    else if IsDecimalLiteral(s) then Some(DigitsValue(s))
    else None
  }

  lemma {:induction false} DigitsValueOfNat(n: nat)
    ensures DigitsValue(NatToString(n)) == n
  {
    var s := NatToString(n);
    if n >= 10 {
      DigitsValueOfNat(n / 10);
      assert s[..|s| - 1] == NatToString(n / 10);
    } else {
      assert s[..|s| - 1] == [];
    }
  }

  /** Every decimal numeral `f"{n}"` reads back as `n` through `int()`. */
  lemma NatToStringParses(n: nat)
    ensures ParseInt(NatToString(n)) == Some(n)
  {
    DigitsValueOfNat(n);
  }
}
