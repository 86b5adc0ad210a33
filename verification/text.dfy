/**
 * String primitives shared by the whole model, stated the way JavaScript
 * defines them: the whitespace class of `\s` and `String.prototype.trim`,
 * ASCII `toLowerCase`, `includes`, and the `\s+ -> ' '` rewrite.
 */
module Text {

  /** JavaScript's whitespace: WhiteSpace and LineTerminator code points.
      This is both what `\s` matches and what `trim` removes. */
  predicate IsSpace(c: char) {
    || c == '\t' || c == '\n' || c == '\U{000B}' || c == '\U{000C}' || c == '\r'
    || c == ' ' || c == '\U{00A0}' || c == '\U{1680}'
    || ('\U{2000}' <= c <= '\U{200A}')
    || c == '\U{2028}' || c == '\U{2029}' || c == '\U{202F}' || c == '\U{205F}'
    || c == '\U{3000}' || c == '\U{FEFF}'
  }

  /** `\w` of a non-Unicode regular expression: [A-Za-z0-9_]. */
  predicate IsWordChar(c: char) {
    ('a' <= c <= 'z') || ('A' <= c <= 'Z') || ('0' <= c <= '9') || c == '_'
  }

  function LowerChar(c: char): (r: char)
    ensures 'A' <= c <= 'Z' ==> 'a' <= r <= 'z'
    ensures !('A' <= c <= 'Z') ==> r == c
  {
    if 'A' <= c <= 'Z' then (c as int + 32) as char else c
  }

  /** `toLowerCase`, restricted to ASCII letters. */
  function Lower(s: string): (r: string)
    ensures |r| == |s|
    ensures forall i :: 0 <= i < |s| ==> r[i] == LowerChar(s[i])
  {
    seq(|s|, i requires 0 <= i < |s| => LowerChar(s[i]))
  }

  /** `text.includes(pattern)`: some window of `text` equals `pattern`
      (so every text includes the empty pattern). */
  predicate Contains(text: string, pattern: string) {
    exists i | 0 <= i <= |text| - |pattern| :: OccursAt(text, pattern, i)
  }

  /** `pattern` starts at position `i` of `text`. */
  predicate OccursAt(text: string, pattern: string, i: int) {
    0 <= i <= |text| - |pattern| && text[i..i + |pattern|] == pattern
  }

  /** `trimStart`: drops the leading whitespace. */
  function TrimStart(s: string): (r: string)
    ensures |r| <= |s| && r == s[|s| - |r|..]
    ensures forall i :: 0 <= i < |s| - |r| ==> IsSpace(s[i])
    ensures r == [] || !IsSpace(r[0])
  {
    if |s| > 0 && IsSpace(s[0]) then
      var r := TrimStart(s[1..]);
      assert forall i :: 1 <= i < |s| ==> s[i] == s[1..][i - 1];
      r
    else s
  }

  /** `trimEnd`: drops the trailing whitespace. */
  function TrimEnd(s: string): (r: string)
    ensures |r| <= |s| && r == s[..|r|]
    ensures forall i :: |r| <= i < |s| ==> IsSpace(s[i])
    ensures r == [] || !IsSpace(r[|r| - 1])
  {
    if |s| > 0 && IsSpace(s[|s| - 1]) then
      var r := TrimEnd(s[..|s| - 1]);
      assert forall i :: 0 <= i < |s| - 1 ==> s[i] == s[..|s| - 1][i];
      r
    else s
  }

  /** Any slice of single-spaced text is single-spaced. */
  lemma SingleSpacedSlice(s: string, a: nat, b: nat)
    requires a <= b <= |s| && SingleSpaced(s)
    ensures SingleSpaced(s[a..b])
  {
    assert forall i :: 0 <= i < b - a ==> s[a..b][i] == s[a + i];
  }

  /** `trim`: no whitespace at either end, and only whitespace removed. */
  function Trim(s: string): (r: string)
    ensures r == [] || (!IsSpace(r[0]) && !IsSpace(r[|r| - 1]))
    ensures NonSpace(r) == NonSpace(s)
    ensures SingleSpaced(s) ==> SingleSpaced(r)
    ensures |r| <= |s|
  {
    TrimEnds(s);
    TrimKeepsNonSpace(s);
    assert SingleSpaced(s) ==> SingleSpaced(TrimEnd(TrimStart(s))) by {
      if SingleSpaced(s) {
        TrimKeepsSingleSpaced(s);
      }
    }
    TrimEnd(TrimStart(s))
  }

  /** Every character of `s` before `i` or from `j` on is whitespace. */
  predicate OnlySpacesOutside(s: string, i: nat, j: nat)
    requires i <= j <= |s|
  {
    && (forall k :: 0 <= k < i ==> IsSpace(s[k]))
    && (forall k :: j <= k < |s| ==> IsSpace(s[k]))
  }

  /** `trim` keeps one slice of the text, drops only whitespace around it,
      and so keeps the words. */
  lemma TrimIsSlice(s: string)
    ensures exists i, j :: 0 <= i <= j <= |s| && Trim(s) == s[i..j] && OnlySpacesOutside(s, i, j)
    ensures Words(Trim(s)) == Words(s)
  {
    var t := TrimStart(s);
    var r := TrimEnd(t);
    assert Trim(s) == r;
    var i, j := SliceOfSlice(s, t, r);
    assert r == s[i..j] && OnlySpacesOutside(s, i, j);
    TrimKeepsWords(s);
  }

  /** A prefix `r` of a suffix `t` of `s`, with only whitespace around it,
      is a slice of `s` with only whitespace around it. */
  lemma SliceOfSlice(s: string, t: string, r: string) returns (i: nat, j: nat)
    requires |t| <= |s| && t == s[|s| - |t|..] && |r| <= |t| && r == t[..|r|]
    requires forall k :: 0 <= k < |s| - |t| ==> IsSpace(s[k])
    requires forall k :: |r| <= k < |t| ==> IsSpace(t[k])
    ensures i <= j <= |s| && r == s[i..j] && OnlySpacesOutside(s, i, j)
  {
    i := |s| - |t|;
    j := i + |r|;
    assert r == s[i..j];
    forall k | j <= k < |s| ensures IsSpace(s[k]) {
      assert s[k] == t[k - i];
    }
  }

  /** Trimming keeps the words. */
  lemma TrimKeepsWords(s: string)
    ensures Words(TrimEnd(TrimStart(s))) == Words(s)
  {
    var t := TrimStart(s);
    var r := TrimEnd(t);
    SpacesThenRest(s, |s| - |t|);
    RestThenSpaces(t, |r|);
  }

  /** Whitespace in front of a text does not change its words. */
  lemma SpacesThenRest(s: string, n: nat)
    requires n <= |s| && forall k :: 0 <= k < n ==> IsSpace(s[k])
    ensures Words(s[n..]) == Words(s)
  {
    assert s == s[..n] + s[n..];
    RunsAfterSeps(s[..n], s[n..], IsSpace);
  }

  /** Whitespace after a text does not change its words. */
  lemma RestThenSpaces(s: string, n: nat)
    requires n <= |s| && forall k :: n <= k < |s| ==> IsSpace(s[k])
    ensures Words(s[..n]) == Words(s)
  {
    assert s == s[..n] + s[n..];
    RunsBeforeSeps(s[..n], s[n..], IsSpace);
  }

  /** Trimming both ends leaves no space at either end. */
  lemma TrimEnds(s: string)
    ensures var r := TrimEnd(TrimStart(s));
      r == [] || (!IsSpace(r[0]) && !IsSpace(r[|r| - 1]))
  {
    var t := TrimStart(s);
    var r := TrimEnd(t);
    assert r != [] ==> r[0] == t[0];
  }

  /** Trimming removes only spaces. */
  lemma TrimKeepsNonSpace(s: string)
    ensures NonSpace(TrimEnd(TrimStart(s))) == NonSpace(s)
  {
    TrimStartKeepsNonSpace(s);
    TrimEndKeepsNonSpace(TrimStart(s));
  }

  /** Trimming keeps a single-spaced string single-spaced. */
  lemma TrimKeepsSingleSpaced(s: string)
    requires SingleSpaced(s)
    ensures SingleSpaced(TrimEnd(TrimStart(s)))
  {
    var t := TrimStart(s);
    var r := TrimEnd(t);
    SingleSpacedSlice(s, |s| - |t|, |s|);
    SingleSpacedSlice(t, 0, |r|);
  }

  /** The trimmed text is a slice of the original, so it holds no
      character the original does not. */
  lemma TrimWithin(s: string)
    ensures forall c :: c in Trim(s) ==> c in s
  {
    var t := TrimStart(s);
    var r := TrimEnd(t);
    forall c | c in r ensures c in s {
      var i :| 0 <= i < |r| && r[i] == c;
      assert r[i] == t[i] == s[|s| - |t| + i];
    }
  }

  /** Text with no whitespace at either end is its own trim. */
  lemma TrimOfTrimmed(s: string)
    requires s == [] || (!IsSpace(s[0]) && !IsSpace(s[|s| - 1]))
    ensures Trim(s) == s
  {
  }

  /** The non-whitespace characters of `s`, in order. */
  function NonSpace(s: string): string {
    if |s| == 0 then [] else (if IsSpace(s[0]) then [] else [s[0]]) + NonSpace(s[1..])
  }

  /** The non-space characters split over a concatenation. */
  lemma {:induction false} NonSpaceAppend(a: string, b: string)
    ensures NonSpace(a + b) == NonSpace(a) + NonSpace(b)
  {
    if |a| == 0 {
      assert a + b == b;
    } else {
      assert (a + b)[1..] == a[1..] + b;
      NonSpaceAppend(a[1..], b);
    }
  }

  /** A string of spaces has no non-space characters. */
  lemma {:induction false} NonSpaceOfSpaces(s: string)
    requires forall i :: 0 <= i < |s| ==> IsSpace(s[i])
    ensures NonSpace(s) == []
  {
    if |s| > 0 {
      NonSpaceOfSpaces(s[1..]);
    }
  }

  /** Trimming the start removes only spaces. */
  lemma TrimStartKeepsNonSpace(s: string)
    ensures NonSpace(TrimStart(s)) == NonSpace(s)
  {
    var r := TrimStart(s);
    var k := |s| - |r|;
    assert s == s[..k] + r;
    NonSpaceAppend(s[..k], r);
    NonSpaceOfSpaces(s[..k]);
  }

  /** Trimming the end removes only spaces. */
  lemma TrimEndKeepsNonSpace(s: string)
    ensures NonSpace(TrimEnd(s)) == NonSpace(s)
  {
    var r := TrimEnd(s);
    assert s == r + s[|r|..];
    NonSpaceAppend(r, s[|r|..]);
    NonSpaceOfSpaces(s[|r|..]);
  }

  /** Only the space character ' ' stands for whitespace, and never twice in a row. */
  predicate SingleSpaced(s: string) {
    && (forall i :: 0 <= i < |s| && IsSpace(s[i]) ==> s[i] == ' ')
    && (forall i :: 0 <= i < |s| - 1 ==> !(IsSpace(s[i]) && IsSpace(s[i + 1])))
  }

  /** `s.replace(/\s+/g, ' ')`: every maximal run of whitespace becomes one ' '.
      A whitespace character followed by another one is dropped; the last one
      of a run is written as ' '. */
  function CollapseSpaces(s: string): (r: string)
    ensures SingleSpaced(r)
    ensures |r| == 0 <==> |s| == 0
    ensures |s| > 0 ==> (IsSpace(r[0]) <==> IsSpace(s[0]))
    ensures |s| > 0 ==> (IsSpace(r[|r| - 1]) <==> IsSpace(s[|s| - 1]))
    ensures NonSpace(r) == NonSpace(s)
    ensures Words(r) == Words(s)
  {
    if |s| == 0 then []
    else if IsSpace(s[0]) && |s| > 1 && IsSpace(s[1]) then
      NonSpaceSpaceHead(s);
      RunsSepHead(s, IsSpace);
      CollapseSpaces(s[1..])
    else
      var rest := CollapseSpaces(s[1..]);
      var c := if IsSpace(s[0]) then ' ' else s[0];
      ConsSingleSpaced(c, rest);
      NonSpaceCons(c, rest);
      assert s == [s[0]] + s[1..];
      RunsStep(s[0], c, s[1..], rest, IsSpace);
      assert NonSpace(s) == (if IsSpace(c) then [] else [c]) + NonSpace(s[1..]);
      [c] + rest
  }

  /** A space may lead single-spaced text that does not start with one. */
  lemma ConsSingleSpaced(c: char, rest: string)
    requires SingleSpaced(rest)
    requires IsSpace(c) ==> c == ' ' && (rest == [] || !IsSpace(rest[0]))
    ensures SingleSpaced([c] + rest)
  {
    assert forall i :: 1 <= i < |rest| + 1 ==> ([c] + rest)[i] == rest[i - 1];
  }

  /** The non-space characters of a string with a head. */
  lemma NonSpaceCons(c: char, rest: string)
    ensures NonSpace([c] + rest) == (if IsSpace(c) then [] else [c]) + NonSpace(rest)
  {
    assert ([c] + rest)[1..] == rest;
  }

  /** A leading space adds no non-space character. */
  lemma NonSpaceSpaceHead(s: string)
    requires |s| > 0 && IsSpace(s[0])
    ensures NonSpace(s) == NonSpace(s[1..])
  {
  }

  /** A single-spaced text is left alone by the `\s+ -> ' '` rewrite. */
  lemma {:induction false} CollapseSingleSpaced(s: string)
    requires SingleSpaced(s)
    ensures CollapseSpaces(s) == s
  {
    if |s| > 0 {
      var tail := s[1..];
      SingleSpacedSlice(s, 1, |s|);
      CollapseSingleSpaced(tail);
      if IsSpace(s[0]) && |s| > 1 {
        assert !IsSpace(s[1]);
      }
      var c := if IsSpace(s[0]) then ' ' else s[0];
      assert c == s[0];
      assert CollapseSpaces(s) == [c] + CollapseSpaces(tail);
      assert s == [s[0]] + tail;
    }
  }

  /** `s.substring(0, n)` for a non-negative `n`. */
  function Take(s: string, n: nat): (r: string)
    ensures |r| <= n && |r| <= |s|
    ensures r == s[..|r|]
    ensures |s| <= n ==> r == s
    ensures n <= |s| ==> |r| == n
  {
    if |s| <= n then s else s[..n]
  }

  /** Length of the longest prefix of `s` whose characters all satisfy `p`. */
  function Span(s: string, p: char -> bool): (n: nat)
    ensures n <= |s|
    ensures forall i :: 0 <= i < n ==> p(s[i])
    ensures n < |s| ==> !p(s[n])
  {
    if |s| > 0 && p(s[0]) then 1 + Span(s[1..], p) else 0
  }

  /** Keeps the characters satisfying `keep`, in order (`s.replace(/[^…]/g, '')`). */
  function KeepWhere(s: string, keep: char -> bool): (r: string)
    ensures |r| <= |s|
    ensures forall i :: 0 <= i < |r| ==> keep(r[i])
    ensures forall c :: c in r ==> c in s
  {
    if |s| == 0 then []
    else
      var rest := KeepWhere(s[1..], keep);
      if keep(s[0]) then [s[0]] + rest else rest
  }

  /** Keeping characters from a string with a head. */
  lemma KeepWhereCons(c: char, x: string, keep: char -> bool)
    ensures KeepWhere([c] + x, keep) == if keep(c) then [c] + KeepWhere(x, keep) else KeepWhere(x, keep)
  {
    assert ([c] + x)[1..] == x;
  }

  /** Keeping characters splits over a concatenation. */
  lemma {:induction false} KeepWhereAppend(a: string, b: string, keep: char -> bool)
    ensures KeepWhere(a + b, keep) == KeepWhere(a, keep) + KeepWhere(b, keep)
  {
    if |a| == 0 {
      assert a + b == b;
    } else {
      assert a + b == [a[0]] + (a[1..] + b);
      KeepWhereAppend(a[1..], b, keep);
      KeepWhereCons(a[0], a[1..] + b, keep);
      assert a == [a[0]] + a[1..];
      KeepWhereCons(a[0], a[1..], keep);
    }
  }

  /** Keeping characters that fail `keep` everywhere leaves nothing. */
  lemma {:induction false} KeepWhereNone(s: string, keep: char -> bool)
    requires forall i :: 0 <= i < |s| ==> !keep(s[i])
    ensures KeepWhere(s, keep) == []
  {
    if |s| > 0 {
      KeepWhereNone(s[1..], keep);
    }
  }

  /** Keeping every character of a text gives the text back. */
  lemma {:induction false} KeepWhereAll(s: string, keep: char -> bool)
    requires forall i :: 0 <= i < |s| ==> keep(s[i])
    ensures KeepWhere(s, keep) == s
  {
    if |s| > 0 {
      KeepWhereAll(s[1..], keep);
      assert s == [s[0]] + s[1..];
    }
  }

  /** Dropping whitespace and dropping unwanted characters commute. */
  lemma {:induction false} NonSpaceKeepWhere(s: string, keep: char -> bool)
    ensures NonSpace(KeepWhere(s, keep)) == KeepWhere(NonSpace(s), keep)
  {
    if |s| > 0 {
      NonSpaceKeepWhere(s[1..], keep);
      var c, rest, ns := s[0], KeepWhere(s[1..], keep), NonSpace(s[1..]);
      assert ([c] + rest)[1..] == rest && ([c] + ns)[1..] == ns;
      if IsSpace(c) {
        assert NonSpace(s) == ns;
      } else {
        assert NonSpace(s) == [c] + ns;
      }
    }
  }

  /** A text includes whatever a later part of it includes. */
  lemma ContainsAfter(a: string, b: string, pattern: string)
    requires Contains(b, pattern)
    ensures Contains(a + b, pattern)
  {
    var i :| 0 <= i <= |b| - |pattern| && OccursAt(b, pattern, i);
    assert (a + b)[|a| + i..|a| + i + |pattern|] == b[i..i + |pattern|];
    assert OccursAt(a + b, pattern, |a| + i);
  }

  /** A text includes its own prefixes. */
  lemma ContainsPrefix(a: string, b: string)
    ensures Contains(a + b, a)
  {
    assert (a + b)[0..|a|] == a;
    assert OccursAt(a + b, a, 0);
  }

  /** The concatenation of a sequence of sequences, in order. */
  function Flatten<T>(xs: seq<seq<T>>): seq<T> {
    if |xs| == 0 then [] else xs[0] + Flatten(xs[1..])
  }

  /** The first sequence, then the concatenation of the rest. */
  lemma FlattenCons<T>(x: seq<T>, xs: seq<seq<T>>)
    ensures Flatten([x] + xs) == x + Flatten(xs)
  {
    assert ([x] + xs)[1..] == xs;
  }

  /** The pieces, with `sep` between neighbours (`Array.prototype.join`). */
  function Join(pieces: seq<string>, sep: string): string {
    if |pieces| == 0 then []
    else if |pieces| == 1 then pieces[0]
    else pieces[0] + sep + Join(pieces[1..], sep)
  }

  /** Joining a piece in front of a non-empty list puts `sep` after it. */
  lemma JoinCons(x: string, xs: seq<string>, sep: string)
    requires |xs| > 0
    ensures Join([x] + xs, sep) == x + sep + Join(xs, sep)
  {
    assert ([x] + xs)[1..] == xs;
  }

  // ---------------------------------------------------------------------
  // Runs and words
  // ---------------------------------------------------------------------

  /** `s` starts with a character outside `sep`, that is, inside a run. */
  predicate StartsRun(s: string, sep: char -> bool) {
    |s| > 0 && !sep(s[0])
  }

  /** The maximal runs of characters outside `sep`, in order: the pieces of
      splitting `s` at every `sep` character, empty pieces dropped. Defined
      one character at a time: a separator is skipped, and any other
      character joins the run that follows it directly, if there is one. */
  function Runs(s: string, sep: char -> bool): (w: seq<string>)
    ensures StartsRun(s, sep) ==> |w| > 0
    ensures forall k :: 0 <= k < |w| ==> |w[k]| > 0
    ensures forall k, i :: 0 <= k < |w| && 0 <= i < |w[k]| ==> !sep(w[k][i])
  {
    if |s| == 0 then []
    else
      var rest := Runs(s[1..], sep);
      if sep(s[0]) then rest
      else if StartsRun(s[1..], sep) then
        var first := [s[0]] + rest[0];
        assert forall i :: 1 <= i < |first| ==> first[i] == rest[0][i - 1];
        assert forall k :: 1 <= k < |rest| ==> rest[1..][k - 1] == rest[k];
        [first] + rest[1..]
      else [[s[0]]] + rest
  }

  /** Runs of a string with a head character. */
  lemma RunsCons(c: char, x: string, sep: char -> bool)
    ensures Runs([c] + x, sep) ==
      if sep(c) then Runs(x, sep)
      else if StartsRun(x, sep) then [[c] + Runs(x, sep)[0]] + Runs(x, sep)[1..]
      else [[c]] + Runs(x, sep)
  {
    assert ([c] + x)[1..] == x;
  }

  /** Two strings with the same runs keep the same runs under heads that
      are both separators or are the same character. */
  lemma RunsStep(c: char, d: char, x: string, y: string, sep: char -> bool)
    requires sep(c) <==> sep(d)
    requires !sep(c) ==> c == d
    requires Runs(x, sep) == Runs(y, sep) && StartsRun(x, sep) == StartsRun(y, sep)
    ensures Runs([c] + x, sep) == Runs([d] + y, sep)
    ensures StartsRun([c] + x, sep) == StartsRun([d] + y, sep)
  {
    RunsCons(c, x, sep);
    RunsCons(d, y, sep);
  }

  /** Leading separators do not change the runs. */
  lemma {:induction false} RunsAfterSeps(p: string, x: string, sep: char -> bool)
    requires forall i :: 0 <= i < |p| ==> sep(p[i])
    ensures Runs(p + x, sep) == Runs(x, sep)
  {
    if |p| == 0 {
      assert p + x == x;
    } else {
      assert (p + x)[1..] == p[1..] + x;
      RunsAfterSeps(p[1..], x, sep);
    }
  }

  /** Trailing separators change neither the runs nor whether a run starts. */
  lemma {:induction false} RunsBeforeSeps(x: string, p: string, sep: char -> bool)
    requires forall i :: 0 <= i < |p| ==> sep(p[i])
    ensures Runs(x + p, sep) == Runs(x, sep)
    ensures StartsRun(x + p, sep) == StartsRun(x, sep)
  {
    if |x| == 0 {
      assert x + p == p + x;
      RunsAfterSeps(p, x, sep);
    } else {
      RunsBeforeSeps(x[1..], p, sep);
      assert x + p == [x[0]] + (x[1..] + p);
      assert x == [x[0]] + x[1..];
      RunsStep(x[0], x[0], x[1..] + p, x[1..], sep);
    }
  }

  /** A leading chunk of `n` non-separators that ends at a separator or at
      the end of `s` is the first run. */
  lemma {:induction false} RunsChunk(s: string, sep: char -> bool, n: nat)
    requires 0 < n <= |s|
    requires forall i :: 0 <= i < n ==> !sep(s[i])
    requires n < |s| ==> sep(s[n])
    ensures Runs(s, sep) == [s[..n]] + Runs(s[n..], sep)
  {
    if n == 1 {
      assert s[..1] == [s[0]];
    } else {
      RunsChunk(s[1..], sep, n - 1);
      assert [s[0]] + s[1..][..n - 1] == s[..n];
      assert s[1..][n - 1..] == s[n..];
    }
  }

  /** The runs hold exactly the non-separator characters, in order. */
  lemma {:induction false} RunsFlatten(s: string, sep: char -> bool, keep: char -> bool)
    requires forall c :: keep(c) == !sep(c)
    ensures Flatten(Runs(s, sep)) == KeepWhere(s, keep)
  {
    if |s| > 0 {
      var rest := Runs(s[1..], sep);
      RunsFlatten(s[1..], sep, keep);
      if !sep(s[0]) {
        if StartsRun(s[1..], sep) {
          FlattenCons([s[0]] + rest[0], rest[1..]);
          assert rest == [rest[0]] + rest[1..];
          FlattenCons(rest[0], rest[1..]);
        } else {
          FlattenCons([s[0]], rest);
        }
      }
    }
  }

  /** The words of a text: its maximal runs of non-whitespace. */
  function Words(s: string): seq<string> {
    Runs(s, IsSpace)
  }

  /** `s` starts inside a word. */
  predicate StartsWord(s: string) {
    StartsRun(s, IsSpace)
  }

  /** Text with no whitespace at either end, single-spaced. */
  predicate Clean(s: string) {
    SingleSpaced(s) && (s == [] || (!IsSpace(s[0]) && !IsSpace(s[|s| - 1])))
  }

  /** In clean text, a whitespace character is a single ' ' followed by
      clean text. */
  lemma CleanAfterSpace(s: string, n: nat)
    requires Clean(s) && n < |s| && IsSpace(s[n])
    ensures s[n] == ' ' && n + 1 < |s| && Clean(s[n + 1..])
  {
    assert n + 1 < |s|;
    SingleSpacedSlice(s, n + 1, |s|);
  }

  /** A leading separator is skipped. */
  lemma RunsSepHead(s: string, sep: char -> bool)
    requires |s| > 0 && sep(s[0])
    ensures Runs(s, sep) == Runs(s[1..], sep)
  {
  }

  /** Clean text is its words joined by single spaces. */
  lemma {:induction false} JoinWordsOfClean(s: string)
    requires Clean(s)
    ensures Join(Words(s), " ") == s
  {
    if |s| > 0 {
      var n := FirstWordOfClean(s);
      if n < |s| {
        var tail := s[n + 1..];
        JoinWordsOfClean(tail);
        JoinCons(s[..n], Words(tail), " ");
      }
    }
  }

  /** Non-empty clean text is a first word of length `n`, alone or followed
      by one space and more clean text. */
  lemma FirstWordOfClean(s: string) returns (n: nat)
    requires Clean(s) && |s| > 0
    ensures 0 < n <= |s|
    ensures n == |s| ==> Words(s) == [s]
    ensures n < |s| ==>
      && s == s[..n] + " " + s[n + 1..]
      && Clean(s[n + 1..]) && |Words(s[n + 1..])| > 0
      && Words(s) == [s[..n]] + Words(s[n + 1..])
  {
    n := Span(s, c => !IsSpace(c));
    RunsChunk(s, IsSpace, n);
    if n < |s| {
      CleanAfterSpace(s, n);
      var tail := s[n + 1..];
      assert s[n..][1..] == tail;
      RunsSepHead(s[n..], IsSpace);
      assert StartsRun(tail, IsSpace);
      assert s == s[..n] + " " + tail;
    } else {
      assert s[..n] == s;
    }
  }
}
