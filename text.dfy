/**
 * The parts of Rust's `str` API that the puzzle parsers rely on, with Rust's
 * semantics: `split` on a pattern, `lines`, `split_whitespace`, prefix and
 * suffix stripping, and `parse::<usize>` / `parse::<isize>` (without the
 * overflow check, since integers here are unbounded).
 */
module Text {
  import opened Wrappers

  /** `sep` occurs in `s` starting at index `i`. */
  predicate OccursAt(s: string, sep: string, i: nat)
  {
    i + |sep| <= |s| && s[i..i + |sep|] == sep
  }

  lemma OccursAtTail(s: string, sep: string)
    requires |s| > 0
    ensures forall i: nat :: OccursAt(s[1..], sep, i) <==> OccursAt(s, sep, i + 1)
  {
    forall i: nat
      ensures OccursAt(s[1..], sep, i) <==> OccursAt(s, sep, i + 1)
    {
      if i + |sep| <= |s[1..]| {
        assert s[1..][i..i + |sep|] == s[i + 1..i + 1 + |sep|];
      }
    }
  }

  /** Index of the leftmost occurrence of `sep` in `s`, as `str::find` returns it. */
  function IndexOf(s: string, sep: string): (r: Option<nat>)
    requires |sep| > 0
    ensures r.Some? ==> OccursAt(s, sep, r.value)
    ensures r.Some? ==> forall i: nat :: i < r.value ==> !OccursAt(s, sep, i)
    ensures r.None? ==> forall i: nat :: !OccursAt(s, sep, i)
    decreases |s|
  {
    if |s| < |sep| then None
    else if s[..|sep|] == sep then Some(0)
    else
      OccursAtTail(s, sep);
      assert !OccursAt(s, sep, 0);
      assert forall i: nat :: i > 0 ==> OccursAt(s, sep, i) == OccursAt(s[1..], sep, i - 1);
      match IndexOf(s[1..], sep)
      case None => None
      case Some(i) => Some(i + 1)
  }

  /** `s` contains `sub` (`str::contains`). */
  predicate Contains(s: string, sub: string)
    requires |sub| > 0
  {
    IndexOf(s, sub).Some?
  }

  /** `str::split(sep)`: the pieces between non-overlapping leftmost occurrences of `sep`. */
  function Split(s: string, sep: string): (parts: seq<string>)
    requires |sep| > 0
    ensures |parts| >= 1
    decreases |s|
  {
    match IndexOf(s, sep)
    case None => [s]
    case Some(i) => [s[..i]] + Split(s[i + |sep|..], sep)
  }

  /** The inverse direction of `Split`: the pieces glued back together with `sep`. */
  function Join(parts: seq<string>, sep: string): string
    requires |parts| >= 1
  {
    if |parts| == 1 then parts[0] else parts[0] + sep + Join(parts[1..], sep)
  }

  /** Splitting loses nothing: joining the pieces with the separator gives the input back. */
  lemma {:induction false} SplitJoin(s: string, sep: string)
    requires |sep| > 0
    ensures Join(Split(s, sep), sep) == s
    decreases |s|
  {
    var r := IndexOf(s, sep);
    if r.Some? {
      var i := r.value;
      var rest := s[i + |sep|..];
      var parts := Split(s, sep);
      assert parts == [s[..i]] + Split(rest, sep);
      assert parts[1..] == Split(rest, sep);
      SplitJoin(rest, sep);
      calc {
        Join(parts, sep);
        s[..i] + sep + Join(Split(rest, sep), sep);
        s[..i] + sep + rest;
        { assert s[i..i + |sep|] == sep; }
        s;
      }
    }
  }

  /** Joining one more piece appends the separator and that piece. */
  lemma {:induction false} JoinSnoc(parts: seq<string>, sep: string, k: nat)
    requires 1 <= k < |parts|
    ensures Join(parts[..k + 1], sep) == Join(parts[..k], sep) + sep + parts[k]
    decreases k
  {
    if k > 1 {
      JoinSnoc(parts[1..], sep, k - 1);
      assert parts[..k + 1][1..] == parts[1..][..k];
      assert parts[..k][1..] == parts[1..][..k - 1];
    }
  }

  /** A piece of a split at a one-character separator does not contain that character. */
  lemma SplitPiecesFreeChar(s: string, d: char, k: nat)
    requires k < |Split(s, [d])|
    ensures d !in Split(s, [d])[k]
  {
    var piece := Split(s, [d])[k];
    SplitPiecesFree(s, [d], k);
    if d in piece {
      var i :| 0 <= i < |piece| && piece[i] == d;
      assert piece[i..i + 1] == [d];
      assert OccursAt(piece, [d], i);
    }
  }

  /**
   * A text made of `a`, the separator and `b`, where the separator occurs
   * neither earlier nor in `b`, splits into exactly `a` and `b`.
   */
  lemma SplitInTwo(a: string, sep: string, b: string)
    requires |sep| > 0
    requires forall i: nat | i < |a| :: !OccursAt(a + sep + b, sep, i)
    requires forall i: nat :: !OccursAt(b, sep, i)
    ensures Split(a + sep + b, sep) == [a, b]
  {
    var s := a + sep + b;
    assert OccursAt(s, sep, |a|) by {
      assert s[|a|..|a| + |sep|] == sep;
    }
    var r := IndexOf(s, sep);
    assert r == Some(|a|);
    assert s[..|a|] == a;
    assert s[|a| + |sep|..] == b;
    assert IndexOf(b, sep).None?;
  }

  /** A separator occurring first right after `a` splits off `a` as the first piece. */
  lemma SplitFirst(a: string, sep: string, b: string)
    requires |sep| > 0
    requires forall i: nat | i < |a| :: !OccursAt(a + sep + b, sep, i)
    ensures Split(a + sep + b, sep) == [a] + Split(b, sep)
  {
    var s := a + sep + b;
    assert OccursAt(s, sep, |a|) by {
      assert s[|a|..|a| + |sep|] == sep;
    }
    assert IndexOf(s, sep) == Some(|a|);
    assert s[..|a|] == a;
    assert s[|a| + |sep|..] == b;
  }

  /** A one-character separator absent from `a` splits off `a` as the first piece. */
  lemma SplitFirstChar(a: string, d: char, b: string)
    requires d !in a
    ensures Split(a + [d] + b, [d]) == [a] + Split(b, [d])
  {
    var s := a + [d] + b;
    forall i: nat | i < |a|
      ensures !OccursAt(s, [d], i)
    {
      assert s[i] == a[i];
    }
    SplitFirst(a, [d], b);
  }

  /** With a one-character separator found in neither part, the split gives back the parts. */
  lemma SplitAtChar(a: string, d: char, b: string)
    requires d !in a && d !in b
    ensures Split(a + [d] + b, [d]) == [a, b]
  {
    var s := a + [d] + b;
    forall i: nat | i < |a|
      ensures !OccursAt(s, [d], i)
    {
      assert s[i] == a[i];
    }
    forall i: nat
      ensures !OccursAt(b, [d], i)
    {
      if i + 1 <= |b| {
        assert b[i..i + 1] == [b[i]];
      }
    }
    SplitInTwo(a, [d], b);
  }

  /** A text without the (one-character) separator is a single piece. */
  lemma SplitWithoutChar(a: string, d: char)
    requires d !in a
    ensures Split(a, [d]) == [a]
  {
    forall i: nat
      ensures !OccursAt(a, [d], i)
    {
      if i + 1 <= |a| {
        assert a[i..i + 1] == [a[i]];
      }
    }
  }

  /** Pieces free of a one-character separator, joined with it, split back into the same pieces. */
  lemma {:induction false} JoinSplitChar(parts: seq<string>, d: char)
    requires |parts| >= 1
    requires forall k | 0 <= k < |parts| :: d !in parts[k]
    ensures Split(Join(parts, [d]), [d]) == parts
    decreases |parts|
  {
    if |parts| == 1 {
      SplitWithoutChar(parts[0], d);
    } else {
      JoinSplitChar(parts[1..], d);
      SplitFirstChar(parts[0], d, Join(parts[1..], [d]));
    }
  }

  /** No piece of a split contains the separator. */
  lemma {:induction false} SplitPiecesFree(s: string, sep: string, k: nat)
    requires |sep| > 0
    requires k < |Split(s, sep)|
    ensures forall i: nat :: !OccursAt(Split(s, sep)[k], sep, i)
    decreases |s|
  {
    match IndexOf(s, sep)
    case None =>
    case Some(j) =>
      if k == 0 {
        forall i: nat
          ensures !OccursAt(s[..j], sep, i)
        {
          if OccursAt(s[..j], sep, i) {
            assert s[..j][i..i + |sep|] == s[i..i + |sep|];
            assert OccursAt(s, sep, i);
          }
        }
      } else {
        SplitPiecesFree(s[j + |sep|..], sep, k - 1);
      }
  }

  /** Removes one trailing carriage return, as `str::lines` does. */
  function StripCarriageReturn(line: string): string
  {
    if |line| > 0 && line[|line| - 1] == '\r' then line[..|line| - 1] else line
  }

  /**
   * `str::lines`: the input split at each `'\n'`, without the empty piece after a
   * final newline, each line without a trailing `'\r'`.
   */
  function Lines(s: string): (lines: seq<string>)
  {
    var parts := Split(s, "\n");
    var kept := if parts[|parts| - 1] == "" then parts[..|parts| - 1] else parts;
    seq(|kept|, k requires 0 <= k < |kept| => StripCarriageReturn(kept[k]))
  }

  /** Text without a newline is one line (or none, when empty). */
  lemma LinesOfSingleLine(s: string)
    requires forall i | 0 <= i < |s| :: s[i] != '\n'
    ensures s == "" ==> Lines(s) == []
    ensures s != "" ==> Lines(s) == [StripCarriageReturn(s)]
  {
    forall i: nat
      ensures !OccursAt(s, "\n", i)
    {
      if i + 1 <= |s| {
        assert s[i..i + 1] == [s[i]];
      }
    }
  }

  /** The characters `char::is_whitespace` accepts among ASCII. */
  predicate IsWhitespace(c: char)
  {
    c == ' ' || c == '\t' || c == '\n' || c == '\r' || c == 11 as char || c == 12 as char
  }

  /** `str::split_whitespace`: the maximal runs of non-whitespace characters. */
  function SplitWhitespace(s: string): (tokens: seq<string>)
    ensures forall k | 0 <= k < |tokens| :: |tokens[k]| > 0
    ensures forall k, i | 0 <= k < |tokens| && 0 <= i < |tokens[k]| :: !IsWhitespace(tokens[k][i])
  {
    Tokens(s, "")
  }

  function Tokens(s: string, current: string): (tokens: seq<string>)
    requires forall i | 0 <= i < |current| :: !IsWhitespace(current[i])
    ensures forall k | 0 <= k < |tokens| :: |tokens[k]| > 0
    ensures forall k, i | 0 <= k < |tokens| && 0 <= i < |tokens[k]| :: !IsWhitespace(tokens[k][i])
    decreases |s|
  {
    if s == [] then
      (if current == [] then [] else [current])
    else if IsWhitespace(s[0]) then
      (if current == [] then Tokens(s[1..], []) else [current] + Tokens(s[1..], []))
    else
      Tokens(s[1..], current + [s[0]])
  }

  predicate AllWhitespace(w: string)
  {
    forall i | 0 <= i < |w| :: IsWhitespace(w[i])
  }

  /** `gaps[0] + tokens[0] + gaps[1] + ... + tokens[n - 1] + gaps[n]`. */
  function Weave(gaps: seq<string>, tokens: seq<string>): string
    requires |gaps| == |tokens| + 1
    decreases |tokens|
  {
    if tokens == [] then gaps[0] else gaps[0] + tokens[0] + Weave(gaps[1..], tokens[1..])
  }

  /**
   * `s` is the tokens in order, separated by whitespace gaps, with at least
   * one whitespace character between two tokens. Together with the tokens
   * being non-empty and free of whitespace, this makes them exactly the
   * maximal non-whitespace runs of `s`.
   */
  predicate Separates(gaps: seq<string>, tokens: seq<string>, s: string)
  {
    |gaps| == |tokens| + 1
    && (forall k | 0 <= k < |gaps| :: AllWhitespace(gaps[k]))
    && (forall k | 0 < k < |tokens| :: gaps[k] != [])
    && s == Weave(gaps, tokens)
  }

  /** Whitespace in front of a text goes into its first gap. */
  lemma SeparatesWiden(c: char, gaps: seq<string>, tokens: seq<string>, s: string)
    requires IsWhitespace(c) && Separates(gaps, tokens, s)
    ensures Separates([[c] + gaps[0]] + gaps[1..], tokens, [c] + s)
  {
    var g := [[c] + gaps[0]] + gaps[1..];
    assert g[1..] == gaps[1..];
    forall k | 0 <= k < |g|
      ensures AllWhitespace(g[k])
    {
      if k > 0 {
        assert g[k] == gaps[k];
      }
    }
    forall k | 0 < k < |tokens|
      ensures g[k] != []
    {
      assert g[k] == gaps[k];
    }
  }

  /** A token in front of a text starting with whitespace becomes its first token. */
  lemma SeparatesToken(token: string, gaps: seq<string>, tokens: seq<string>, s: string)
    requires Separates(gaps, tokens, s) && gaps[0] != []
    ensures Separates([[]] + gaps, [token] + tokens, token + s)
  {
    var g := [[]] + gaps;
    var t := [token] + tokens;
    assert g[1..] == gaps && t[1..] == tokens;
    forall k | 0 <= k < |g|
      ensures AllWhitespace(g[k])
    {
      if k > 0 {
        assert g[k] == gaps[k - 1];
      }
    }
    forall k | 0 < k < |t|
      ensures g[k] != []
    {
      assert g[k] == gaps[k - 1];
    }
  }

  /** The tokens of the text are its non-whitespace runs, in order, between whitespace gaps. */
  lemma SplitWhitespaceRuns(s: string)
    ensures exists gaps :: Separates(gaps, SplitWhitespace(s), s)
  {
    assert [] + s == s;
    var gaps := TokensRuns(s, []);
    assert Separates(gaps, SplitWhitespace(s), s);
  }

  lemma {:induction false} TokensRuns(s: string, current: string) returns (gaps: seq<string>)
    requires forall i | 0 <= i < |current| :: !IsWhitespace(current[i])
    ensures Separates(gaps, Tokens(s, current), current + s)
    ensures current != [] ==> gaps[0] == []
    decreases |s|
  {
    if s == [] {
      gaps := if current == [] then [[]] else [[], []];
      assert current + s == current;
    } else if IsWhitespace(s[0]) {
      var rest := Tokens(s[1..], []);
      assert [] + s[1..] == s[1..];
      var g := TokensRuns(s[1..], []);
      SeparatesWiden(s[0], g, rest, s[1..]);
      assert [s[0]] + s[1..] == s;
      var widened := [[s[0]] + g[0]] + g[1..];
      if current == [] {
        gaps := widened;
        assert current + s == s;
      } else {
        SeparatesToken(current, widened, rest, s);
        gaps := [[]] + widened;
      }
    } else {
      gaps := TokensRuns(s[1..], current + [s[0]]);
      assert (current + [s[0]]) + s[1..] == current + s;
    }
  }

  predicate StartsWith(s: string, prefix: string)
  {
    |prefix| <= |s| && s[..|prefix|] == prefix
  }

  predicate EndsWith(s: string, suffix: string)
  {
    |suffix| <= |s| && s[|s| - |suffix|..] == suffix
  }

  /** `str::strip_prefix`. */
  function StripPrefix(s: string, prefix: string): (r: Option<string>)
    ensures r.Some? <==> StartsWith(s, prefix)
    ensures r.Some? ==> prefix + r.value == s
  {
    if StartsWith(s, prefix) then Some(s[|prefix|..]) else None
  }

  /** `str::strip_suffix`. */
  function StripSuffix(s: string, suffix: string): (r: Option<string>)
    ensures r.Some? <==> EndsWith(s, suffix)
    ensures r.Some? ==> r.value + suffix == s
  {
    if EndsWith(s, suffix) then Some(s[..|s| - |suffix|]) else None
  }

  predicate IsDigit(c: char)
  {
    '0' <= c <= '9'
  }

  predicate AllDigits(s: string)
  {
    forall i | 0 <= i < |s| :: IsDigit(s[i])
  }

  function DigitValue(c: char): nat
    requires IsDigit(c)
  {
    c as int - '0' as int
  }

  function DigitChar(d: nat): (c: char)
    requires d < 10
    ensures IsDigit(c) && DigitValue(c) == d
  {
    ('0' as int + d) as char
  }

  /** The value of a string of decimal digits, most significant first. */
  function DigitsValue(s: string): nat
    requires AllDigits(s)
  {
    if |s| == 0 then 0 else DigitsValue(s[..|s| - 1]) * 10 + DigitValue(s[|s| - 1])
  }

  /**
   * `str::parse::<usize>`: an optional `+`, then at least one decimal digit and
   * nothing else.
   */
  function ParseNat(s: string): Option<nat>
  {
    var digits := if |s| > 0 && s[0] == '+' then s[1..] else s;
    if |digits| > 0 && AllDigits(digits) then Some(DigitsValue(digits)) else None
  }

  /** `str::parse::<isize>`: as `ParseNat`, but a leading `-` negates. */
  function ParseInt(s: string): Option<int>
  {
    if |s| > 0 && s[0] == '-' then
      (if |s| > 1 && AllDigits(s[1..]) then Some(-(DigitsValue(s[1..]) as int)) else None)
    else
      match ParseNat(s)
      case Some(n) => Some(n as int)
      case None => None
  }

  /** The error of a failed `str::parse` (which kind of failure is not modelled). */
  datatype ParseIntError = ParseIntError

  /** `str::parse::<usize>` with its error type. */
  function ParseUsize(s: string): (r: Result<nat, ParseIntError>)
    ensures r.Ok? <==> ParseNat(s).Some?
    ensures r.Ok? ==> ParseNat(s) == Some(r.value)
  {
    match ParseNat(s)
    case Some(n) => Ok(n)
    case None => Err(ParseIntError)
  }

  /**
   * `content.lines().map(str::parse::<usize>).collect()`: one number per
   * line, or an error when any line is not a number.
   */
  function ParseNumberLines(content: string): (r: Result<seq<nat>, ParseIntError>)
    ensures r.Ok? ==> |r.value| == |Lines(content)|
    ensures r.Ok? ==> forall i | 0 <= i < |r.value| :: ParseNat(Lines(content)[i]) == Some(r.value[i])
    ensures r.Err? <==> exists i | 0 <= i < |Lines(content)| :: ParseNat(Lines(content)[i]).None?
  {
    CollectAll(Lines(content), ParseUsize)
  }

  /** Decimal representation of `n` without leading zeros (`format!("{}", n)`). */
  function ShowNat(n: nat): (r: string)
    ensures |r| >= 1 && AllDigits(r)
    ensures r[0] != '+' && r[0] != '-'
  {
    if n < 10 then [DigitChar(n)] else ShowNat(n / 10) + [DigitChar(n % 10)]
  }

  lemma {:induction false} DigitsOfShowNat(n: nat)
    ensures DigitsValue(ShowNat(n)) == n
  {
    if n >= 10 {
      DigitsOfShowNat(n / 10);
      var r := ShowNat(n);
      assert r[..|r| - 1] == ShowNat(n / 10);
    }
  }

  /** Printing a number and parsing it back gives the number. */
  lemma ParseShowNat(n: nat)
    ensures ParseNat(ShowNat(n)) == Some(n)
  {
    DigitsOfShowNat(n);
  }

  /** `format!("{:+}", i)`: always signed, `+0` for zero. */
  function ShowSigned(i: int): (r: string)
    ensures |r| >= 2 && (r[0] == '+' || r[0] == '-')
  {
    if i < 0 then "-" + ShowNat(-i) else "+" + ShowNat(i)
  }

  /** Printing a signed number with an explicit sign and parsing it back gives the number. */
  lemma ParseShowSigned(i: int)
    ensures ParseInt(ShowSigned(i)) == Some(i)
  {
    var r := ShowSigned(i);
    if i < 0 {
      DigitsOfShowNat(-i);
      assert r[1..] == ShowNat(-i);
    } else {
      DigitsOfShowNat(i);
      assert r[1..] == ShowNat(i);
    }
  }
}
