/**
  * String primitives shared by the Rust node and the Python client: the two
  * languages' notions of whitespace, trimming, whitespace tokenising, joining
  * and substring search.
  */
module Text {
  import opened Wrappers

  /** Rust's `char::is_whitespace`: the Unicode White_Space property. */
  predicate IsRustSpace(c: char) {
    || ('\t' <= c <= '\r')
    || c == ' '
    || c == '\U{85}'
    || c == '\U{A0}'
    || c == '\U{1680}'
    || ('\U{2000}' <= c <= '\U{200A}')
    || c == '\U{2028}'
    || c == '\U{2029}'
    || c == '\U{202F}'
    || c == '\U{205F}'
    || c == '\U{3000}'
  }

  /** Python's `str.isspace`: Rust's set plus the four separators U+001C..U+001F. */
  predicate IsPySpace(c: char) {
    IsRustSpace(c) || ('\U{1C}' <= c <= '\U{1F}')
  }

  /** Every character of `s` is whitespace (vacuously true of ""). */
  predicate Blank(s: string, ws: char -> bool) {
    forall i :: 0 <= i < |s| ==> ws(s[i])
  }

  /** No character of `s` is whitespace. */
  predicate NoSpace(s: string, ws: char -> bool) {
    forall i :: 0 <= i < |s| ==> !ws(s[i])
  }

  /** Removes the maximal whitespace prefix (`str::trim_start`, `str.lstrip`). */
  function TrimStart(s: string, ws: char -> bool): (r: string)
    ensures |r| <= |s| && r == s[|s| - |r|..]
    ensures Blank(s[..|s| - |r|], ws)
    ensures r == [] || !ws(r[0])
    decreases |s|
  {
    if s != [] && ws(s[0]) then
      var r := TrimStart(s[1..], ws);
      BlankCons(s, |s| - |r|, ws);
      DropDrop(s, 1, |s| - 1 - |r|);
      r
    else
      s
  }

  /** A prefix that starts with whitespace and continues blank is blank. */
  lemma BlankCons(s: string, n: nat, ws: char -> bool)
    requires 1 <= n <= |s| && ws(s[0]) && Blank(s[1..][..n - 1], ws)
    ensures Blank(s[..n], ws)
  {
    forall k | 0 <= k < n ensures ws(s[..n][k]) {
      if k > 0 { assert s[..n][k] == s[1..][..n - 1][k - 1]; }
    }
  }

  /** Removes the maximal whitespace suffix (`str::trim_end`, `str.rstrip`). */
  function TrimEnd(s: string, ws: char -> bool): (r: string)
    ensures |r| <= |s| && r == s[..|r|]
    ensures Blank(s[|r|..], ws)
    ensures r == [] || !ws(r[|r| - 1])
    decreases |s|
  {
    if s != [] && ws(s[|s| - 1]) then
      var r := TrimEnd(s[..|s| - 1], ws);
      BlankSnoc(s, |r|, ws);
      r
    else
      s
  }

  /** A suffix that ends with whitespace and is blank before that is blank. */
  lemma BlankSnoc(s: string, m: nat, ws: char -> bool)
    requires m < |s| && ws(s[|s| - 1]) && Blank(s[..|s| - 1][m..], ws)
    ensures Blank(s[m..], ws)
  {
    forall k | 0 <= k < |s| - m ensures ws(s[m..][k]) {
      if k < |s| - 1 - m { assert s[m..][k] == s[..|s| - 1][m..][k]; }
    }
  }

  /** Rust's `str::trim` with `ws` = IsRustSpace; Python's `str.strip()` with `ws` = IsPySpace. */
  function Trim(s: string, ws: char -> bool): string {
    TrimEnd(TrimStart(s, ws), ws)
  }

  /** The trimmed text neither starts nor ends with whitespace. */
  lemma TrimEnds(s: string, ws: char -> bool)
    ensures var r := Trim(s, ws); r == [] || (!ws(r[0]) && !ws(r[|r| - 1]))
  {
    var t := TrimStart(s, ws);
    var r := TrimEnd(t, ws);
    if r != [] {
      assert r[0] == t[0];
    }
  }

  /** Trimming yields "" exactly when the text is blank. */
  lemma TrimEmptyIffBlank(s: string, ws: char -> bool)
    ensures Trim(s, ws) == [] <==> Blank(s, ws)
  {
    var t := TrimStart(s, ws);
    var r := TrimEnd(t, ws);
    TrimStartSplit(s, ws);
    TrimEndSplit(t, ws);
    BlankConcat(s[..|s| - |t|], t, ws);
    BlankConcat(r, t[|r|..], ws);
    if r != [] {
      assert !ws(r[0]);
    }
  }

  /** A concatenation is blank exactly when both parts are. */
  lemma BlankConcat(a: string, b: string, ws: char -> bool)
    ensures Blank(a + b, ws) <==> Blank(a, ws) && Blank(b, ws)
  {
    if Blank(a + b, ws) {
      forall k | 0 <= k < |a| ensures ws(a[k]) { assert a[k] == (a + b)[k]; }
      forall k | 0 <= k < |b| ensures ws(b[k]) { assert b[k] == (a + b)[|a| + k]; }
    }
    if Blank(a, ws) && Blank(b, ws) {
      forall k | 0 <= k < |a + b| ensures ws((a + b)[k]) {
        if k < |a| { assert (a + b)[k] == a[k]; } else { assert (a + b)[k] == b[k - |a|]; }
      }
    }
  }

  /** Stripping twice is stripping once. */
  lemma TrimIdempotent(s: string, ws: char -> bool)
    ensures Trim(Trim(s, ws), ws) == Trim(s, ws)
  {
    TrimEnds(s, ws);
    TrimTrimmed(Trim(s, ws), ws);
  }

  /** A text whose ends are not whitespace is left unchanged by trimming. */
  lemma TrimTrimmed(s: string, ws: char -> bool)
    requires s == [] || (!ws(s[0]) && !ws(s[|s| - 1]))
    ensures Trim(s, ws) == s
  {
  }

  /** Length of the leading run of non-whitespace characters. */
  function WordLength(s: string, ws: char -> bool): (n: nat)
    ensures n <= |s| && NoSpace(s[..n], ws)
    ensures n < |s| ==> ws(s[n])
  {
    if s == [] || ws(s[0]) then 0
    else
      var n := 1 + WordLength(s[1..], ws);
      assert s[..n] == [s[0]] + s[1..][..n - 1];
      n
  }

  /**
    * The whitespace-separated words of `s`, in order, with the empty words
    * dropped (Rust's `str::split_whitespace` with `ws` = IsRustSpace).
    */
  function Tokens(s: string, ws: char -> bool): (ts: seq<string>)
    ensures forall i :: 0 <= i < |ts| ==> ts[i] != [] && NoSpace(ts[i], ws)
    decreases |s|
  {
    if s == [] then []
    else if ws(s[0]) then Tokens(s[1..], ws)
    else
      var n := WordLength(s, ws);
      [s[..n]] + Tokens(s[n..], ws)
  }

  /** Rust's `[&str]::join(sep)`. */
  function Join(ts: seq<string>, sep: string): string {
    if ts == [] then []
    else if |ts| == 1 then ts[0]
    else ts[0] + sep + Join(ts[1..], sep)
  }

  /** A text has no words exactly when it is blank. */
  lemma {:induction false} TokensEmptyIffBlank(s: string, ws: char -> bool)
    ensures Tokens(s, ws) == [] <==> Blank(s, ws)
    decreases |s|
  {
    if s != [] && ws(s[0]) {
      TokensEmptyIffBlank(s[1..], ws);
      assert Blank(s, ws) <==> Blank(s[1..], ws) by {
        if Blank(s[1..], ws) {
          forall k | 0 <= k < |s| ensures ws(s[k]) { if k > 0 { assert s[k] == s[1..][k - 1]; } }
        }
      }
    }
  }

  /** A single word tokenises to itself. */
  lemma TokensOfWord(w: string, ws: char -> bool)
    requires w != [] && NoSpace(w, ws)
    ensures Tokens(w, ws) == [w]
  {
    var n := WordLength(w, ws);
    assert n == |w|;
    assert w[..n] == w;
  }

  /** The leading word of `s` has length `k` when `k` characters of non-space end at a space or at the end. */
  lemma WordLengthIs(s: string, ws: char -> bool, k: nat)
    requires k <= |s| && NoSpace(s[..k], ws) && (k < |s| ==> ws(s[k]))
    ensures WordLength(s, ws) == k
  {
    var n := WordLength(s, ws);
    assert forall i :: 0 <= i < n ==> s[..n][i] == s[i];
    assert forall i :: 0 <= i < k ==> s[..k][i] == s[i];
  }

  /** A word followed by a whitespace character is the first token of what follows. */
  lemma TokensAfterWord(w: string, c: char, rest: string, ws: char -> bool)
    requires w != [] && NoSpace(w, ws) && ws(c)
    ensures Tokens(w + [c] + rest, ws) == [w] + Tokens(rest, ws)
  {
    var s := w + [c] + rest;
    assert s[..|w|] == w;
    WordLengthIs(s, ws, |w|);
    assert s[|w|..] == [c] + rest;
    assert ([c] + rest)[1..] == rest;
  }

  /** Leading whitespace does not change the tokens. */
  lemma {:induction false} TokensBlankPrefix(p: string, s: string, ws: char -> bool)
    requires Blank(p, ws)
    ensures Tokens(p + s, ws) == Tokens(s, ws)
    decreases |p|
  {
    if p == [] {
      assert p + s == s;
    } else {
      assert (p + s)[0] == p[0] && ws(p[0]);
      assert (p + s)[1..] == p[1..] + s;
      assert Tokens(p + s, ws) == Tokens(p[1..] + s, ws);
      assert forall k :: 0 <= k < |p| - 1 ==> p[1..][k] == p[k + 1];
      TokensBlankPrefix(p[1..], s, ws);
    }
  }

  /** One trailing whitespace character does not change the tokens. */
  lemma {:induction false} TokensAppendSpace(s: string, c: char, ws: char -> bool)
    requires ws(c)
    ensures Tokens(s + [c], ws) == Tokens(s, ws)
    decreases |s|
  {
    var t := s + [c];
    if s == [] {
      assert t[1..] == [];
    } else if ws(s[0]) {
      assert t[1..] == s[1..] + [c];
      TokensAppendSpace(s[1..], c, ws);
    } else {
      var n := WordLength(s, ws);
      assert t[..n] == s[..n];
      WordLengthIs(t, ws, n);
      assert t[n..] == s[n..] + [c];
      TokensAppendSpace(s[n..], c, ws);
    }
  }

  /** Trailing whitespace does not change the tokens. */
  lemma {:induction false} TokensBlankSuffix(s: string, q: string, ws: char -> bool)
    requires Blank(q, ws)
    ensures Tokens(s + q, ws) == Tokens(s, ws)
    decreases |q|
  {
    if q == [] {
      assert s + q == s;
    } else {
      var q' := q[..|q| - 1];
      assert s + q == (s + q') + [q[|q| - 1]];
      assert forall k :: 0 <= k < |q'| ==> q'[k] == q[k];
      assert ws(q[|q| - 1]);
      TokensAppendSpace(s + q', q[|q| - 1], ws);
      TokensBlankSuffix(s, q', ws);
    }
  }

  /** Trimming the start leaves a blank prefix before what it returns. */
  lemma TrimStartSplit(s: string, ws: char -> bool)
    ensures var t := TrimStart(s, ws); s == s[..|s| - |t|] + t && Blank(s[..|s| - |t|], ws)
  {
    var t := TrimStart(s, ws);
    TakeDrop(s, |s| - |t|);
  }

  /** Trimming the end leaves a blank suffix after what it returns. */
  lemma TrimEndSplit(t: string, ws: char -> bool)
    ensures var r := TrimEnd(t, ws); t == r + t[|r|..] && Blank(t[|r|..], ws)
  {
    var r := TrimEnd(t, ws);
    TakeDrop(t, |r|);
  }

  /** A text is its first `n` characters followed by the rest. */
  lemma TakeDrop(s: string, n: nat)
    requires n <= |s|
    ensures s == s[..n] + s[n..]
  {
  }

  /** Tokenising the trimmed text gives the tokens of the text itself. */
  lemma TokensOfTrim(s: string, ws: char -> bool)
    ensures Tokens(Trim(s, ws), ws) == Tokens(s, ws)
  {
    var t := TrimStart(s, ws);
    var r := TrimEnd(t, ws);
    TrimStartSplit(s, ws);
    TokensBlankPrefix(s[..|s| - |t|], t, ws);
    TrimEndSplit(t, ws);
    TokensBlankSuffix(r, t[|r|..], ws);
  }

  /**
    * Joining non-empty, whitespace-free words with single spaces and
    * tokenising the result gives the words back.
    */
  lemma {:induction false} TokensOfJoin(ts: seq<string>, ws: char -> bool)
    requires ws(' ')
    requires forall i :: 0 <= i < |ts| ==> ts[i] != [] && NoSpace(ts[i], ws)
    ensures Tokens(Join(ts, " "), ws) == ts
  {
    if |ts| == 1 {
      TokensOfWord(ts[0], ws);
    } else if |ts| > 1 {
      assert Join(ts, " ") == ts[0] + [' '] + Join(ts[1..], " ");
      TokensAfterWord(ts[0], ' ', Join(ts[1..], " "), ws);
      TokensOfJoin(ts[1..], ws);
      assert ts == [ts[0]] + ts[1..];
    }
  }

  /** The lower-case form of an ASCII letter; any other character unchanged. */
  function LowerChar(c: char): char {
    if 'A' <= c <= 'Z' then (c as int + 32) as char else c
  }

  /** Python's `str.lower` on ASCII text: each character in lower case. */
  function LowerAscii(s: string): (r: string)
    ensures |r| == |s|
  {
    seq(|s|, i requires 0 <= i < |s| => LowerChar(s[i]))
  }

  /** `m` occurs in `s` starting at index `j`. */
  predicate OccursAt(s: string, m: string, j: int) {
    0 <= j && j + |m| <= |s| && s[j..j + |m|] == m
  }

  /**
    * The index of the first occurrence of `m` in `s` (Python's `str.find`
    * as an option; `m in s` is `IndexOf(s, m).Some?`).
    */
  function IndexOf(s: string, m: string): (r: Option<nat>)
    ensures r.Some? ==> OccursAt(s, m, r.value)
    ensures forall j :: 0 <= j && (r.None? || j < r.value) ==> !OccursAt(s, m, j)
    decreases |s|
  {
    if |s| < |m| then None
    else if s[..|m|] == m then Some(0)
    else
      var r := IndexOf(s[1..], m);
      OccursShift(s, m);
      match r
      case None => None
      case Some(k) => Some(k + 1)
  }

  /** An occurrence at `j >= 1` in `s` is an occurrence at `j - 1` in `s[1..]`. */
  lemma OccursShift(s: string, m: string)
    requires s != []
    ensures forall j {:trigger OccursAt(s, m, j)} :: 1 <= j ==> (OccursAt(s, m, j) <==> OccursAt(s[1..], m, j - 1))
  {
    forall j {:trigger OccursAt(s, m, j)} | 1 <= j && j + |m| <= |s|
      ensures s[j..j + |m|] == s[1..][j - 1..j - 1 + |m|]
    {
      var a, b := s[j..j + |m|], s[1..][j - 1..j - 1 + |m|];
      forall k | 0 <= k < |m| ensures a[k] == b[k] {
        assert a[k] == s[j + k];
      }
    }
  }

  /**
    * Strips every leading repetition of `p` (Rust's `str::trim_start_matches`
    * with a string pattern).
    */
  function TrimStartMatches(s: string, p: string): (r: string)
    ensures |r| <= |s| && r == s[|s| - |r|..]
    ensures p != [] ==> !(|p| <= |r| && r[..|p|] == p)
    decreases |s|
  {
    if p != [] && |p| <= |s| && s[..|p|] == p then
      var r := TrimStartMatches(s[|p|..], p);
      DropDrop(s, |p|, |s| - |p| - |r|);
      r
    else
      s
  }

  /** One leading copy of the pattern is stripped, then stripping goes on. */
  lemma TrimStartMatchesOne(p: string, y: string)
    requires p != []
    ensures TrimStartMatches(p + y, p) == TrimStartMatches(y, p)
  {
    assert (p + y)[..|p|] == p && (p + y)[|p|..] == y;
  }

  /** One trailing copy of the pattern is stripped, then stripping goes on. */
  lemma TrimEndMatchesOne(y: string, p: string)
    requires p != []
    ensures TrimEndMatches(y + p, p) == TrimEndMatches(y, p)
  {
    assert (y + p)[|y|..] == p && (y + p)[..|y|] == y;
  }

  /** Dropping `a` and then `b` characters is dropping `a + b`. */
  lemma DropDrop(s: string, a: nat, b: nat)
    requires a + b <= |s|
    ensures s[a..][b..] == s[a + b..]
  {
    assert forall k :: 0 <= k < |s| - a - b ==> s[a..][b..][k] == s[a + b + k];
  }

  /**
    * Strips every trailing repetition of `p` (Rust's `str::trim_end_matches`
    * with a string pattern).
    */
  function TrimEndMatches(s: string, p: string): (r: string)
    ensures |r| <= |s| && r == s[..|r|]
    ensures p != [] ==> !(|p| <= |r| && r[|r| - |p|..] == p)
    decreases |s|
  {
    if p != [] && |p| <= |s| && s[|s| - |p|..] == p then TrimEndMatches(s[..|s| - |p|], p) else s
  }
}
