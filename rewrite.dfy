/**
 * The two rewrites of the accumulated markdown body (untitled.php:324-341).
 *
 * (a) When the original filename differs from the final one, every occurrence of the
 *     original is replaced by the final filename. The pattern is `preg_quote(original)` with
 *     each whitespace character turned into `(\s|%20)`, so a whitespace character of the
 *     original matches one whitespace character of the body or the text `%20`.
 * (b) Then `/(!\[)[^\]]*?(]\([^\[\]]*?FILENAME\))/` is replaced by `${1}LABEL${2}`: the alt text
 *     of every image reference whose path ends in the filename becomes the label.
 *
 * Both are leftmost, non-overlapping global replacements, as `preg_replace` does them.
 */
module Rewrite {
  import opened Text
  import opened Wrappers

  // ---------------------------------------------------------------------------
  // (a) The whitespace-tolerant filename substitution
  // ---------------------------------------------------------------------------

  /** One element of the pattern: a quoted literal character, or the group `(\s|%20)`. */
  datatype Atom = Literal(c: char) | Blank

  /** The pattern of lines 325-329: every character quoted, every whitespace made a Blank. */
  function Compile(original: Str): (p: seq<Atom>)
    ensures |p| == |original|
    decreases |original|
  {
    if original == [] then []
    else [if IsSpace(original[0]) then Blank else Literal(original[0])] + Compile(original[1..])
  }

  function Lengthen(r: Option<nat>, k: nat): Option<nat>
  {
    match r
    case Some(n) => Some(n + k)
    case None => None
  }

  /** The length of the match of `p` at the start of `s`, as PCRE finds it (the two alternatives of a Blank never both apply). */
  function MatchPrefix(p: seq<Atom>, s: Str): (r: Option<nat>)
    ensures r.Some? ==> |p| <= r.value <= |s|
    decreases |p|
  {
    if p == [] then Some(0)
    else
      match p[0]
      case Literal(c) =>
        if |s| > 0 && s[0] == c then Lengthen(MatchPrefix(p[1..], s[1..]), 1) else None
      case Blank =>
        if |s| > 0 && IsSpace(s[0]) then Lengthen(MatchPrefix(p[1..], s[1..]), 1)
        else if "%20" <= s then Lengthen(MatchPrefix(p[1..], s[3..]), 3)
        else None
  }

  /**
   * The reference reading of the tolerant comparison: `t` spells `original` with each of its
   * whitespace characters written as any whitespace character or as `%20`.
   */
  predicate Tolerates(original: Str, t: Str)
    decreases |original|
  {
    if original == [] then t == []
    else if IsSpace(original[0]) then
      (|t| > 0 && IsSpace(t[0]) && Tolerates(original[1..], t[1..]))
      || ("%20" <= t && Tolerates(original[1..], t[3..]))
    else |t| > 0 && t[0] == original[0] && Tolerates(original[1..], t[1..])
  }

  /** The compiled pattern matches exactly the spellings the reference accepts. */
  lemma MatchPrefixTolerates(original: Str, s: Str, n: nat)
    ensures MatchPrefix(Compile(original), s) == Some(n) <==> n <= |s| && Tolerates(original, s[..n])
  {
    if MatchPrefix(Compile(original), s) == Some(n) {
      MatchSound(original, s);
    }
    if n <= |s| && Tolerates(original, s[..n]) {
      MatchComplete(original, s, n);
    }
  }

  /** What the compiled pattern matches is a spelling the reference accepts. */
  lemma {:induction false} MatchSound(original: Str, s: Str)
    requires MatchPrefix(Compile(original), s).Some?
    ensures var n := MatchPrefix(Compile(original), s).value; n <= |s| && Tolerates(original, s[..n])
    decreases |original|
  {
    var n := MatchPrefix(Compile(original), s).value;
    if original != [] {
      var p := Compile(original);
      var rest := original[1..];
      assert p[1..] == Compile(rest);
      if IsSpace(original[0]) {
        assert p[0] == Blank;
        if |s| > 0 && IsSpace(s[0]) {
          MatchSound(rest, s[1..]);
          assert s[..n][1..] == s[1..][..n - 1];
        } else {
          MatchSound(rest, s[3..]);
          assert s[..n][3..] == s[3..][..n - 3];
        }
      } else {
        assert p[0] == Literal(original[0]);
        MatchSound(rest, s[1..]);
        assert s[..n][1..] == s[1..][..n - 1];
      }
    }
  }

  /** Every spelling the reference accepts at the start of `s` is what the compiled pattern matches. */
  lemma {:induction false} MatchComplete(original: Str, s: Str, n: nat)
    requires n <= |s| && Tolerates(original, s[..n])
    ensures MatchPrefix(Compile(original), s) == Some(n)
    decreases |original|
  {
    if original != [] {
      var p := Compile(original);
      var rest := original[1..];
      assert p[1..] == Compile(rest);
      if IsSpace(original[0]) {
        assert p[0] == Blank;
        if |s| > 0 && IsSpace(s[0]) {
          assert s[..n][1..] == s[1..][..n - 1];
          MatchComplete(rest, s[1..], n - 1);
        } else {
          assert s[..n][3..] == s[3..][..n - 3];
          MatchComplete(rest, s[3..], n - 3);
        }
      } else {
        assert p[0] == Literal(original[0]);
        assert s[..n][1..] == s[1..][..n - 1];
        MatchComplete(rest, s[1..], n - 1);
      }
    }
  }

  /** No match at the start of `s` exactly when no prefix of `s` spells the original. */
  lemma NoMatchPrefix(original: Str, s: Str)
    ensures MatchPrefix(Compile(original), s).None? <==> forall n: nat :: n <= |s| ==> !Tolerates(original, s[..n])
  {
    var r := MatchPrefix(Compile(original), s);
    if r.Some? {
      MatchPrefixTolerates(original, s, r.value);
    }
    forall n: nat | n <= |s| && Tolerates(original, s[..n])
      ensures r.Some?
    {
      MatchPrefixTolerates(original, s, n);
    }
  }

  /** preg_replace with the compiled pattern and a literal replacement. */
  function ReplaceAll(s: Str, p: seq<Atom>, rep: Str): Str
    decreases |s|
  {
    if s == [] then (if p == [] then rep else [])
    else
      match MatchPrefix(p, s)
      case None => [s[0]] + ReplaceAll(s[1..], p, rep)
      case Some(n) =>
        if n == 0 then rep + [s[0]] + ReplaceAll(s[1..], p, rep)
        else rep + ReplaceAll(s[n..], p, rep)
  }

  /** `s[i..i+n]` spells the original. */
  predicate TolerantAt(original: Str, s: Str, i: nat, n: nat)
  {
    i + n <= |s| && Tolerates(original, s[i..i + n])
  }

  lemma NoMatchAt(original: Str, s: Str, i: nat)
    requires i <= |s|
    requires forall n: nat :: !TolerantAt(original, s, i, n)
    ensures MatchPrefix(Compile(original), s[i..]).None?
  {
    forall n: nat | n <= |s[i..]| ensures !Tolerates(original, s[i..][..n]) {
      assert s[i..][..n] == s[i..i + n];
      assert !TolerantAt(original, s, i, n);
    }
    NoMatchPrefix(original, s[i..]);
  }

  /** A body in which the original occurs nowhere is left as it is. */
  lemma {:induction false} SubstituteNowhere(original: Str, s: Str, rep: Str)
    requires original != []
    requires forall i: nat, n: nat :: !TolerantAt(original, s, i, n)
    ensures ReplaceAll(s, Compile(original), rep) == s
    decreases |s|
  {
    if s != [] {
      NoMatchAt(original, s, 0);
      assert s[0..] == s;
      forall i: nat, n: nat | true ensures !TolerantAt(original, s[1..], i, n) {
        if i + 1 + n <= |s| {
          assert s[1..][i..i + n] == s[i + 1..i + 1 + n];
          assert !TolerantAt(original, s, i + 1, n);
        }
      }
      SubstituteNowhere(original, s[1..], rep);
    }
  }

  /**
   * The leftmost occurrence is replaced and the scan resumes after it: with the first
   * occurrence at `i`, of length `n`, the result is the text before it, the replacement,
   * and the rewrite of the text after it.
   */
  lemma {:induction false} SubstituteFirst(original: Str, s: Str, rep: Str, i: nat, n: nat)
    requires original != []
    requires TolerantAt(original, s, i, n)
    requires forall j: nat, m: nat :: j < i ==> !TolerantAt(original, s, j, m)
    ensures ReplaceAll(s, Compile(original), rep) == s[..i] + (rep + ReplaceAll(s[i + n..], Compile(original), rep))
    decreases i
  {
    var p := Compile(original);
    if i == 0 {
      SubstituteAtStart(original, s, rep, n);
      assert s[..0] == [];
    } else {
      var t := s[1..];
      SubstituteSkip(original, s, rep);
      DropFirst(original, s, i, n);
      SubstituteFirst(original, t, rep, i - 1, n);
      assert t[i - 1 + n..] == s[i + n..];
      PrefixStep(s, i, ReplaceAll(s, p, rep), ReplaceAll(t, p, rep), rep + ReplaceAll(s[i + n..], p, rep));
    }
  }

  lemma SubstituteAtStart(original: Str, s: Str, rep: Str, n: nat)
    requires original != []
    requires TolerantAt(original, s, 0, n)
    ensures ReplaceAll(s, Compile(original), rep) == rep + ReplaceAll(s[n..], Compile(original), rep)
  {
    var p := Compile(original);
    MatchPrefixTolerates(original, s, n);
    assert s[..n] == s[0..0 + n];
    assert MatchPrefix(p, s) == Some(n);
    assert ReplaceAll(s, p, rep) == rep + ReplaceAll(s[n..], p, rep);
  }

  lemma SubstituteSkip(original: Str, s: Str, rep: Str)
    requires original != [] && s != []
    requires forall m: nat :: !TolerantAt(original, s, 0, m)
    ensures ReplaceAll(s, Compile(original), rep) == [s[0]] + ReplaceAll(s[1..], Compile(original), rep)
  {
    NoMatchAt(original, s, 0);
    assert s[0..] == s;
  }

  /** The hypotheses of SubstituteFirst, one character further on. */
  lemma DropFirst(original: Str, s: Str, i: nat, n: nat)
    requires 0 < i
    requires TolerantAt(original, s, i, n)
    requires forall j: nat, m: nat :: j < i ==> !TolerantAt(original, s, j, m)
    ensures TolerantAt(original, s[1..], i - 1, n)
    ensures forall j: nat, m: nat :: j < i - 1 ==> !TolerantAt(original, s[1..], j, m)
  {
    assert s[1..][i - 1..i - 1 + n] == s[i..i + n];
    forall j: nat, m: nat | j < i - 1 ensures !TolerantAt(original, s[1..], j, m) {
      if j + 1 + m <= |s| {
        assert s[1..][j..j + m] == s[j + 1..j + 1 + m];
        assert !TolerantAt(original, s, j + 1, m);
      }
    }
  }

  // ---------------------------------------------------------------------------
  // (b) The alt-text substitution
  // ---------------------------------------------------------------------------

  predicate IsBracket(c: char)
  {
    c == '[' || c == ']'
  }

  /** The filename is used as a pattern unquoted: its `.` is any character but a newline, the rest literal. */
  predicate Fits(p: char, c: char)
  {
    if p == '.' then c != '\n' else c == p
  }

  /** `FILENAME\)` matches at index k. */
  predicate ClosesAt(s: Str, k: nat, fname: Str)
  {
    && k + |fname| < |s|
    && (forall i :: 0 <= i < |fname| ==> Fits(fname[i], s[k + i]))
    && s[k + |fname|] == ')'
  }

  /** No bracket in `s[k..m]`: what `[^\[\]]*?` may consume. */
  predicate BracketFree(s: Str, k: nat, m: nat)
  {
    forall b :: k <= b < m && b < |s| ==> !IsBracket(s[b])
  }

  /** The first `]` at or after k. */
  function CloseBracket(s: Str, k: nat): (r: Option<nat>)
    ensures r.Some? ==> k <= r.value < |s|
    decreases |s| - k
  {
    if k >= |s| then None else if s[k] == ']' then Some(k) else CloseBracket(s, k + 1)
  }

  /** CloseBracket finds the first `]` at or after k, and reports None only when there is none. */
  lemma {:induction false} CloseBracketFirst(s: Str, k: nat)
    ensures CloseBracket(s, k).Some? ==>
      s[CloseBracket(s, k).value] == ']' && forall b :: k <= b < CloseBracket(s, k).value ==> s[b] != ']'
    ensures CloseBracket(s, k).None? ==> forall b :: k <= b < |s| ==> s[b] != ']'
    decreases |s| - k
  {
    if k < |s| && s[k] != ']' {
      CloseBracketFirst(s, k + 1);
    }
  }

  /** Where the lazy `[^\[\]]*?` stops: the first bracket-free extension after which `FILENAME\)` matches. */
  function NameStart(s: Str, k: nat, fname: Str): (r: Option<nat>)
    ensures r.Some? ==> k <= r.value && ClosesAt(s, r.value, fname)
    decreases |s| - k
  {
    if ClosesAt(s, k, fname) then Some(k)
    else if k < |s| && !IsBracket(s[k]) then NameStart(s, k + 1, fname)
    else None
  }

  /** NameStart stops at the first place the filename fits, and gives up only at a bracket or the end. */
  lemma {:induction false} NameStartFirst(s: Str, k: nat, fname: Str)
    ensures NameStart(s, k, fname).Some? ==>
      BracketFree(s, k, NameStart(s, k, fname).value) && forall q :: k <= q < NameStart(s, k, fname).value ==> !ClosesAt(s, q, fname)
    ensures NameStart(s, k, fname).None? ==> forall q :: k <= q && BracketFree(s, k, q) ==> !ClosesAt(s, q, fname)
    decreases |s| - k
  {
    if !ClosesAt(s, k, fname) && k < |s| && !IsBracket(s[k]) {
      NameStartFirst(s, k + 1, fname);
    }
  }

  /**
   * The reference reading of a match of the alt-text pattern at the start of `s`: `![`, an
   * alt text up to the first `]` (index j), `(`, a bracket-free path, and the filename with
   * `)` at the first index m where they fit.
   */
  predicate AltRef(s: Str, fname: Str, j: nat, m: nat)
  {
    && 2 <= j < |s| && s[0] == '!' && s[1] == '[' && s[j] == ']' && (forall b :: 2 <= b < j ==> s[b] != ']')
    && j + 1 < |s| && s[j + 1] == '('
    && j + 2 <= m && BracketFree(s, j + 2, m) && ClosesAt(s, m, fname)
    && (forall q :: j + 2 <= q < m ==> !ClosesAt(s, q, fname))
  }

  /** The match of the alt-text pattern at the start of `s`, as (j, m). */
  function AltMatch(s: Str, fname: Str): (r: Option<(nat, nat)>)
    ensures r.Some? ==> r.value.0 <= r.value.1 && r.value.1 + |fname| < |s|
  {
    if !(2 <= |s| && s[0] == '!' && s[1] == '[') then None
    else
      match CloseBracket(s, 2)
      case None => None
      case Some(j) =>
        if j + 1 < |s| && s[j + 1] == '(' then
          match NameStart(s, j + 2, fname)
          case Some(m) => Some((j, m))
          case None => None
        else None
  }

  /** AltMatch finds a match of the reference reading, and finds one whenever there is one. */
  lemma AltMatchSound(s: Str, fname: Str)
    ensures AltMatch(s, fname).Some? ==> AltRef(s, fname, AltMatch(s, fname).value.0, AltMatch(s, fname).value.1)
    ensures AltMatch(s, fname).None? ==> forall j: nat, m: nat :: !AltRef(s, fname, j, m)
  {
    CloseBracketFirst(s, 2);
    var c := CloseBracket(s, 2);
    if c.Some? && c.value + 1 < |s| {
      NameStartFirst(s, c.value + 2, fname);
    }
  }

  /** The reference admits at most one match at a position. */
  lemma AltRefUnique(s: Str, fname: Str, j: nat, m: nat, j': nat, m': nat)
    requires AltRef(s, fname, j, m) && AltRef(s, fname, j', m')
    ensures j == j' && m == m'
  {
  }

  lemma AltMatchIff(s: Str, fname: Str, j: nat, m: nat)
    ensures AltMatch(s, fname) == Some((j, m)) <==> AltRef(s, fname, j, m)
  {
    var r := AltMatch(s, fname);
    AltMatchSound(s, fname);
    if AltRef(s, fname, j, m) && r.Some? {
      AltRefUnique(s, fname, j, m, r.value.0, r.value.1);
    }
  }

  /** preg_replace of the alt-text pattern by `${1}LABEL${2}`. */
  function ReplaceAlt(s: Str, fname: Str, caption: Str): Str
    decreases |s|
  {
    if s == [] then []
    else
      match AltMatch(s, fname)
      case None => [s[0]] + ReplaceAlt(s[1..], fname, caption)
      case Some((j, m)) => "![" + caption + s[j..m + |fname| + 1] + ReplaceAlt(s[m + |fname| + 1..], fname, caption)
  }

  /** A body with no reference to the filename keeps all its alt texts. */
  lemma {:induction false} AltNowhere(s: Str, fname: Str, caption: Str)
    requires forall i: nat, j: nat, m: nat :: i < |s| ==> !AltRef(s[i..], fname, j, m)
    ensures ReplaceAlt(s, fname, caption) == s
    decreases |s|
  {
    if s != [] {
      assert s[0..] == s;
      forall i: nat, j: nat, m: nat | i < |s[1..]| ensures !AltRef(s[1..][i..], fname, j, m) {
        assert s[1..][i..] == s[i + 1..];
      }
      AltNowhere(s[1..], fname, caption);
      AltSkip(s, fname, caption);
    }
  }

  /** No match of the alt-text pattern starts at index i. */
  predicate NoAltAt(s: Str, fname: Str, i: nat)
  {
    i <= |s| && AltMatch(s[i..], fname).None?
  }

  /** Before the first match the text is copied unchanged. */
  lemma {:induction false} AltCopy(s: Str, fname: Str, caption: Str, i: nat)
    requires i <= |s|
    requires forall i': nat :: i' < i ==> NoAltAt(s, fname, i')
    ensures ReplaceAlt(s, fname, caption) == s[..i] + ReplaceAlt(s[i..], fname, caption)
    decreases i
  {
    if i == 0 {
      assert s[..0] == [] && s[0..] == s;
    } else {
      var t := s[1..];
      AltSkipNone(s, fname, caption);
      AltShift(s, fname, i);
      AltCopy(t, fname, caption, i - 1);
      assert t[i - 1..] == s[i..];
      PrefixStep(s, i, ReplaceAlt(s, fname, caption), ReplaceAlt(t, fname, caption), ReplaceAlt(s[i..], fname, caption));
    }
  }

  /** Copying the first character and then i-1 more is copying the first i. */
  lemma PrefixStep(s: Str, i: nat, whole: Str, afterFirst: Str, rest: Str)
    requires 0 < i <= |s|
    requires whole == [s[0]] + afterFirst
    requires afterFirst == s[1..][..i - 1] + rest
    ensures whole == s[..i] + rest
  {
    assert s[..i] == [s[0]] + s[1..][..i - 1];
  }

  lemma AltSkipNone(s: Str, fname: Str, caption: Str)
    requires s != [] && NoAltAt(s, fname, 0)
    ensures ReplaceAlt(s, fname, caption) == [s[0]] + ReplaceAlt(s[1..], fname, caption)
  {
    assert s[0..] == s;
  }

  lemma AltShift(s: Str, fname: Str, i: nat)
    requires 0 < i <= |s|
    requires forall i': nat :: i' < i ==> NoAltAt(s, fname, i')
    ensures forall i': nat :: i' < i - 1 ==> NoAltAt(s[1..], fname, i')
  {
    forall i': nat | i' < i - 1 ensures NoAltAt(s[1..], fname, i') {
      assert s[1..][i'..] == s[i' + 1..];
      assert NoAltAt(s, fname, i' + 1);
    }
  }

  /**
   * At the leftmost reference (at i, alt closed at i+j, filename at i+m) the alt text is
   * replaced by the label and the text from `](` to the closing `)` is kept verbatim.
   */
  lemma AltFirst(s: Str, fname: Str, caption: Str, i: nat, j: nat, m: nat)
    requires i < |s|
    requires AltRef(s[i..], fname, j, m)
    requires forall i': nat, j': nat, m': nat :: i' < i ==> !AltRef(s[i'..], fname, j', m')
    ensures i + m + |fname| + 1 <= |s|
    ensures ReplaceAlt(s, fname, caption) ==
      s[..i] + ("![" + caption + s[i + j..i + m + |fname| + 1] + ReplaceAlt(s[i + m + |fname| + 1..], fname, caption))
  {
    assert ClosesAt(s[i..], m, fname);
    forall i': nat | i' < i ensures NoAltAt(s, fname, i') {
      AltMatchSound(s[i'..], fname);
    }
    AltCopy(s, fname, caption, i);
    AltAtStart(s[i..], fname, caption, j, m);
    AltAssemble(s, fname, caption, i, j, m);
  }

  lemma {:induction false} AltAssemble(s: Str, fname: Str, caption: Str, i: nat, j: nat, m: nat)
    requires i + m + |fname| + 1 <= |s| && j <= m
    requires ReplaceAlt(s, fname, caption) == s[..i] + ReplaceAlt(s[i..], fname, caption)
    requires ReplaceAlt(s[i..], fname, caption) ==
      "![" + caption + s[i..][j..m + |fname| + 1] + ReplaceAlt(s[i..][m + |fname| + 1..], fname, caption)
    ensures ReplaceAlt(s, fname, caption) ==
      s[..i] + ("![" + caption + s[i + j..i + m + |fname| + 1] + ReplaceAlt(s[i + m + |fname| + 1..], fname, caption))
  {
    assert s[i..][j..m + |fname| + 1] == s[i + j..i + m + |fname| + 1];
    assert s[i..][m + |fname| + 1..] == s[i + m + |fname| + 1..];
  }

  lemma {:induction false} AltAtStart(s: Str, fname: Str, caption: Str, j: nat, m: nat)
    requires AltRef(s, fname, j, m)
    ensures m + |fname| + 1 <= |s|
    ensures ReplaceAlt(s, fname, caption) ==
      "![" + caption + s[j..m + |fname| + 1] + ReplaceAlt(s[m + |fname| + 1..], fname, caption)
  {
    AltMatchIff(s, fname, j, m);

  }

  /** Where no reference starts, the character is copied. */
  lemma {:induction false} AltSkip(s: Str, fname: Str, caption: Str)
    requires s != [] && forall j: nat, m: nat :: !AltRef(s, fname, j, m)
    ensures ReplaceAlt(s, fname, caption) == [s[0]] + ReplaceAlt(s[1..], fname, caption)
  {
    AltMatchSound(s, fname);
  }

  // ---------------------------------------------------------------------------
  // Both rewrites, for one image descriptor
  // ---------------------------------------------------------------------------

  function RewriteBody(body: Str, original: Str, filename: Str, caption: Str): Str
  {
    var renamed := if original != filename then ReplaceAll(body, Compile(original), filename) else body;
    ReplaceAlt(renamed, filename, caption)
  }

  /** A body that neither mentions the original nor refers to the filename comes back unchanged. */
  lemma RewriteUntouched(body: Str, original: Str, filename: Str, caption: Str)
    requires original != []
    requires forall i: nat, n: nat :: !TolerantAt(original, body, i, n)
    requires forall i: nat, j: nat, m: nat :: i < |body| ==> !AltRef(body[i..], filename, j, m)
    ensures RewriteBody(body, original, filename, caption) == body
  {
    if original != filename {
      SubstituteNowhere(original, body, filename);
    }
    AltNowhere(body, filename, caption);
  }

  lemma AltMatchExample(s: Str)
    requires s == "![x](p.png)"
    ensures AltMatch(s, "p.png") == Some((3, 5))
  {
    var t: Str := "![x](p.png)";
    assert CloseBracket(t, 2) == Some(3);
    assert t[4] == '(';
    assert t[5..10] == "p.png";
    assert ClosesAt(t, 5, "p.png");
    assert NameStart(t, 5, "p.png") == Some(5);
    assert AltMatch(t, "p.png") == Some((3, 5));
  }

  /** The alt text of a reference to the file becomes the label. */
  lemma AltExample(s: Str)
    requires s == "![x](p.png)"
    ensures ReplaceAlt(s, "p.png", "Sea") == "![Sea](p.png)"
  {
    AltMatchExample(s);
    AltMatchSound(s, "p.png");
    assert s[0..] == s;
    AltFirst(s, "p.png", "Sea", 0, 3, 5);
    assert s[..0] == [] && s[3..11] == "](p.png)" && s[11..] == [];
  }

  /** An encoded space in the body still matches the space of the original name. */
  lemma RenameEncodedSpaceExample(s: Str)
    requires s == "(a%20b)"
    ensures ReplaceAll(s, Compile("a b"), "c") == "(c)"
  {
    var p := [Literal('a'), Blank, Literal('b')];
    assert Compile("a b") == p;
    var u, v: Str := "a%20b)", ")";
    EncodedSpaceMatch(u);
    assert ReplaceAll(v, p, "c") == v;
    assert s[1..] == u && u[5..] == v;
    assert ReplaceAll(u, p, "c") == "c" + v;
  }

  /** The pattern compiled from `a b` matches `a%20b` at the start of the text. */
  lemma EncodedSpaceMatch(u: Str)
    requires u == "a%20b)"
    ensures MatchPrefix([Literal('a'), Blank, Literal('b')], u) == Some(5)
  {
    var p := [Literal('a'), Blank, Literal('b')];
    assert MatchPrefix(p[2..], u[4..]) == Some(1);
    assert u[1..][3..] == u[4..] && p[1..][1..] == p[2..];
  }

  /**
   * Rewriting twice is not rewriting once when the final name contains the original:
   * renaming `a` to `ba` turns `ba` into `bba` on a second pass.
   */
  lemma RewriteTwiceExample(s: Str)
    requires s == "a"
    ensures RewriteBody(s, "a", "ba", "x") == "ba"
    ensures RewriteBody(RewriteBody(s, "a", "ba", "x"), "a", "ba", "x") == "bba"
  {
    var t: Str := "a";
    var u: Str := "ba";
    var v: Str := "bba";
    assert ReplaceAll(t, Compile("a"), "ba") == u;
    assert ReplaceAlt(u, "ba", "x") == u;
    assert ReplaceAll(u, Compile("a"), "ba") == v;
    assert ReplaceAlt(v, "ba", "x") == v;
  }
}
