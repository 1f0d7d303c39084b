/**
 * The Python string operations the cleaners rely on: `str.isspace`,
 * `str.strip()`, `str.split()`, `' '.join(...)`, ASCII `str.lower()` and
 * the substring test `a in b`.
 */
module Text {

  /** Python's `str.isspace` for one character: the characters `strip()` and `split()` remove. */
  predicate IsSpace(c: char)
  {
    ('\t' <= c <= '\r') || ('\U{1C}' <= c <= ' ') || c == '\U{85}' || c == '\U{A0}'
    || c == '\U{1680}' || ('\U{2000}' <= c <= '\U{200A}') || c == '\U{2028}' || c == '\U{2029}'
    || c == '\U{202F}' || c == '\U{205F}' || c == '\U{3000}'
  }

  /** Every character is whitespace (so `s.strip() == ''`). */
  predicate IsBlank(s: string)
  {
    forall i :: 0 <= i < |s| ==> IsSpace(s[i])
  }

  function TrimLeft(s: string): (r: string)
    ensures |r| <= |s| && r == s[|s| - |r|..]
    ensures IsBlank(s[..|s| - |r|])
    ensures r == [] || !IsSpace(r[0])
  {
    if s != [] && IsSpace(s[0]) then TrimLeft(s[1..]) else s
  }

  function TrimRight(s: string): (r: string)
    ensures |r| <= |s| && r == s[..|r|]
    ensures IsBlank(s[|r|..])
    ensures r == [] || !IsSpace(r[|r| - 1])
  {
    if s != [] && IsSpace(s[|s| - 1]) then
      var r := TrimRight(s[..|s| - 1]);
      assert s[|r|..] == s[..|s| - 1][|r|..] + [s[|s| - 1]];
      r
    else s
  }

  /** `r` is a slice of `s` with only whitespace before and after it. */
  predicate BlankAround(s: string, r: string)
  {
    exists i :: 0 <= i <= |s| - |r| && r == s[i..i + |r|] && IsBlank(s[..i]) && IsBlank(s[i + |r|..])
  }

  /** Python `s.strip()`: the middle of `s`, with only whitespace cut off either end. */
  function Strip(s: string): (r: string)
    ensures r == [] <==> IsBlank(s)
    ensures r == [] || (!IsSpace(r[0]) && !IsSpace(r[|r| - 1]))
    ensures BlankAround(s, r)
  {
    var l := TrimLeft(s);
    var r := TrimRight(l);
    MiddleSlice(s, l, r);
    r
  }

  /** Cutting whitespace off the front, then off the back, leaves a slice of `s` with only whitespace around it. */
  lemma MiddleSlice(s: string, l: string, r: string)
    requires |l| <= |s| && l == s[|s| - |l|..] && IsBlank(s[..|s| - |l|]) && (l == [] || !IsSpace(l[0]))
    requires |r| <= |l| && r == l[..|r|] && IsBlank(l[|r|..]) && (r == [] || !IsSpace(r[|r| - 1]))
    ensures r == [] <==> IsBlank(s)
    ensures r == [] || (!IsSpace(r[0]) && !IsSpace(r[|r| - 1]))
    ensures BlankAround(s, r)
  {
    var i := |s| - |l|;
    assert s == s[..i] + l;
    assert s[i..i + |r|] == r;
    assert s[i + |r|..] == l[|r|..];
    if r != [] {
      assert r[0] == l[0];
    }
  }

  /** Number of leading non-whitespace characters. */
  function WordLen(s: string): (n: nat)
    ensures n <= |s|
    ensures forall i :: 0 <= i < n ==> !IsSpace(s[i])
    ensures n == |s| || IsSpace(s[n])
  {
    if s == [] || IsSpace(s[0]) then 0 else 1 + WordLen(s[1..])
  }

  /** A non-empty run of non-whitespace characters. */
  predicate IsWord(w: string)
  {
    w != [] && forall i :: 0 <= i < |w| ==> !IsSpace(w[i])
  }

  /** The characters of `s` that are not whitespace, in order. */
  function NonSpace(s: string): string
  {
    if s == [] then [] else (if IsSpace(s[0]) then [] else [s[0]]) + NonSpace(s[1..])
  }

  /** The words of `ws` written one after another. */
  function Concat(ws: seq<string>): string
  {
    if ws == [] then [] else ws[0] + Concat(ws[1..])
  }

  lemma {:induction false} NonSpaceAppend(a: string, b: string)
    ensures NonSpace(a + b) == NonSpace(a) + NonSpace(b)
    decreases |a|
  {
    if a != [] {
      assert (a + b)[1..] == a[1..] + b;
      NonSpaceAppend(a[1..], b);
    } else {
      assert a + b == b;
    }
  }

  lemma {:induction false} NonSpaceOfWord(w: string)
    requires forall i :: 0 <= i < |w| ==> !IsSpace(w[i])
    ensures NonSpace(w) == w
    decreases |w|
  {
    if w != [] {
      NonSpaceOfWord(w[1..]);
      assert w == [w[0]] + w[1..];
    }
  }

  /**
   * Python `s.split()` with no separator: the maximal non-whitespace runs,
   * in order; written one after another they are `s` without its whitespace.
   */
  function Words(s: string): (ws: seq<string>)
    ensures forall k :: 0 <= k < |ws| ==> IsWord(ws[k])
    ensures ws == [] <==> IsBlank(s)
    ensures Concat(ws) == NonSpace(s)
    decreases |s|
  {
    if s == [] then []
    else if IsSpace(s[0]) then
      var ws := Words(s[1..]);
      assert IsBlank(s[1..]) ==> IsBlank(s) by {
        if IsBlank(s[1..]) {
          forall i | 0 <= i < |s| ensures IsSpace(s[i]) { if i > 0 { assert s[i] == s[1..][i - 1]; } }
        }
      }
      ws
    else
      var n := WordLen(s);
      var rest := Words(s[n..]);
      assert s == s[..n] + s[n..];
      NonSpaceAppend(s[..n], s[n..]);
      NonSpaceOfWord(s[..n]);
      assert ([s[..n]] + rest)[1..] == rest;
      [s[..n]] + rest
  }

  /** `gaps[0] + ws[0] + gaps[1] + ... + ws[n - 1] + gaps[n]`. */
  function Interleave(gaps: seq<string>, ws: seq<string>): string
    requires |gaps| == |ws| + 1
    decreases |ws|
  {
    if ws == [] then gaps[0] else gaps[0] + ws[0] + Interleave(gaps[1..], ws[1..])
  }

  /**
   * `s` is the words `ws` with whitespace gaps around and between them, and
   * every gap between two words holds at least one whitespace character.
   */
  predicate SplitBy(s: string, gaps: seq<string>, ws: seq<string>)
  {
    && |gaps| == |ws| + 1
    && (forall k :: 0 <= k < |gaps| ==> IsBlank(gaps[k]))
    && (forall k :: 0 < k < |ws| ==> gaps[k] != [])
    && s == Interleave(gaps, ws)
  }

  /** A whitespace character in front joins the first gap. */
  lemma SplitBySpaceFirst(c: char, r: string, g: seq<string>, ws: seq<string>)
    requires IsSpace(c) && SplitBy(r, g, ws)
    ensures SplitBy([c] + r, [[c] + g[0]] + g[1..], ws)
  {
    var gaps := [[c] + g[0]] + g[1..];
    assert gaps[1..] == g[1..];
    assert IsBlank(g[0]);
    forall k | 0 < k < |gaps| ensures IsBlank(gaps[k]) && gaps[k] == g[k] {
    }
  }

  /** A word in front, followed by whitespace or nothing, becomes the first word after an empty gap. */
  lemma SplitByWordFirst(w: string, rest: string, g: seq<string>, ws: seq<string>)
    requires IsWord(w) && (rest == [] || IsSpace(rest[0]))
    requires SplitBy(rest, g, ws) && forall k :: 0 <= k < |ws| ==> IsWord(ws[k])
    ensures SplitBy(w + rest, [[]] + g, [w] + ws)
  {
    var gaps := [[]] + g;
    assert ([w] + ws)[1..] == ws && gaps[1..] == g;
    if ws != [] {
      assert rest == g[0] + (ws[0] + Interleave(g[1..], ws[1..]));
      assert IsWord(ws[0]);
    }
  }

  /** The whitespace gaps of `s` around and between its words. */
  function WordsGaps(s: string): (gaps: seq<string>)
    ensures SplitBy(s, gaps, Words(s))
    decreases |s|
  {
    if s == [] then
      assert Interleave([[]], []) == [];
      [[]]
    else if IsSpace(s[0]) then
      var g := WordsGaps(s[1..]);
      SplitBySpaceFirst(s[0], s[1..], g, Words(s[1..]));
      assert s == [s[0]] + s[1..];
      [[s[0]] + g[0]] + g[1..]
    else
      var n := WordLen(s);
      var g := WordsGaps(s[n..]);
      SplitByWordFirst(s[..n], s[n..], g, Words(s[n..]));
      assert s == s[..n] + s[n..];
      [[]] + g
  }

  /** Whitespace in front does not change the words. */
  lemma {:induction false} WordsSkipBlank(g: string, t: string)
    requires IsBlank(g)
    ensures Words(g + t) == Words(t)
    decreases |g|
  {
    if g != [] {
      assert (g + t)[0] == g[0];
      assert (g + t)[1..] == g[1..] + t;
      WordsSkipBlank(g[1..], t);
    } else {
      assert g + t == t;
    }
  }

  /** A word followed by whitespace or nothing is the first word. */
  lemma WordsOfWordThen(w: string, u: string)
    requires IsWord(w) && (u == [] || IsSpace(u[0]))
    ensures Words(w + u) == [w] + Words(u)
  {
    var t := w + u;
    WordLenOfWordThen(w, u);
    assert t[..|w|] == w && t[|w|..] == u && t[0] == w[0];
  }

  /** Taking off the first gap and word leaves a split of the rest, which starts with whitespace if anything. */
  lemma SplitByTail(s: string, gaps: seq<string>, ws: seq<string>)
    requires SplitBy(s, gaps, ws) && ws != []
    ensures var u := Interleave(gaps[1..], ws[1..]);
      && s == gaps[0] + (ws[0] + u)
      && IsBlank(gaps[0])
      && SplitBy(u, gaps[1..], ws[1..])
      && (u == [] || IsSpace(u[0]))
  {
    var u := Interleave(gaps[1..], ws[1..]);
    assert IsBlank(gaps[1]);
    if ws[1..] != [] {
      assert gaps[1] != [];
      assert u == gaps[1] + ws[1] + Interleave(gaps[2..], ws[2..]);
      assert u[0] == gaps[1][0];
    }
    forall k | 0 <= k < |gaps[1..]| ensures IsBlank(gaps[1..][k]) {
      assert gaps[1..][k] == gaps[k + 1];
    }
    forall k | 0 < k < |ws[1..]| ensures gaps[1..][k] != [] {
      assert gaps[1..][k] == gaps[k + 1];
    }
  }

  lemma AllWordsTail(ws: seq<string>)
    requires ws != [] && forall k :: 0 <= k < |ws| ==> IsWord(ws[k])
    ensures forall k :: 0 <= k < |ws[1..]| ==> IsWord(ws[1..][k])
  {
    forall k | 0 <= k < |ws[1..]| ensures IsWord(ws[1..][k]) {
      assert ws[1..][k] == ws[k + 1];
    }
  }

  /**
   * Any way of writing `s` as words separated by whitespace gaps gives
   * exactly `Words(s)`: the words are the maximal runs, none is split.
   */
  lemma {:induction false} SplitByWords(s: string, gaps: seq<string>, ws: seq<string>)
    requires SplitBy(s, gaps, ws) && forall k :: 0 <= k < |ws| ==> IsWord(ws[k])
    ensures ws == Words(s)
    decreases |ws|
  {
    if ws == [] {
      assert IsBlank(gaps[0]);
    } else {
      var u := Interleave(gaps[1..], ws[1..]);
      SplitByTail(s, gaps, ws);
      WordsSkipBlank(gaps[0], ws[0] + u);
      assert IsWord(ws[0]);
      WordsOfWordThen(ws[0], u);
      AllWordsTail(ws);
      SplitByWords(u, gaps[1..], ws[1..]);
      assert ws == [ws[0]] + ws[1..];
    }
  }

  /** Python `' '.join(ws)`. */
  function JoinSpaces(ws: seq<string>): string
  {
    if ws == [] then "" else if |ws| == 1 then ws[0] else ws[0] + " " + JoinSpaces(ws[1..])
  }

  /** No leading or trailing whitespace, every whitespace character is ' ', and no two whitespace characters are adjacent. */
  predicate IsCollapsed(s: string)
  {
    && (s == [] || (!IsSpace(s[0]) && !IsSpace(s[|s| - 1])))
    && (forall i :: 0 <= i < |s| && IsSpace(s[i]) ==> s[i] == ' ')
    && (forall i, j :: 0 <= i < |s| && 0 <= j < |s| && j == i + 1 ==> !IsSpace(s[i]) || !IsSpace(s[j]))
  }

  lemma {:induction false} WordLenOfWordThen(w: string, t: string)
    requires IsWord(w)
    requires t == [] || IsSpace(t[0])
    ensures WordLen(w + t) == |w|
    decreases |w|
  {
    if |w| > 1 {
      assert (w + t)[1..] == w[1..] + t;
      WordLenOfWordThen(w[1..], t);
    } else {
      assert (w + t)[1..] == t;
    }
  }

  /** Splitting a join of words gives the words back. */
  lemma {:induction false} WordsOfJoin(ws: seq<string>)
    requires forall k :: 0 <= k < |ws| ==> IsWord(ws[k])
    ensures Words(JoinSpaces(ws)) == ws
    decreases |ws|
  {
    if |ws| == 1 {
      var w := ws[0];
      WordLenOfWordThen(w, []);
      assert w + [] == w;
      assert w[..|w|] == w && w[|w|..] == [];
    } else if |ws| > 1 {
      var w, rest := ws[0], JoinSpaces(ws[1..]);
      var s := w + " " + rest;
      WordLenOfWordThen(w, " " + rest);
      assert s == w + (" " + rest);
      assert s[..|w|] == w;
      assert s[|w|..] == " " + rest;
      assert (" " + rest)[1..] == rest;
      WordsOfJoin(ws[1..]);
    }
  }

  /** Joining words with single spaces gives a collapsed string. */
  lemma {:induction false} JoinIsCollapsed(ws: seq<string>)
    requires forall k :: 0 <= k < |ws| ==> IsWord(ws[k])
    ensures IsCollapsed(JoinSpaces(ws))
    ensures ws != [] ==> JoinSpaces(ws) != [] && !IsSpace(JoinSpaces(ws)[0])
    decreases |ws|
  {
    if |ws| > 1 {
      var w, rest := ws[0], JoinSpaces(ws[1..]);
      JoinIsCollapsed(ws[1..]);
      var s := w + " " + rest;
      forall i | 0 <= i < |s| && IsSpace(s[i]) ensures s[i] == ' ' {
        if i > |w| {
          assert s[i] == rest[i - |w| - 1];
        }
      }
      forall i, j | 0 <= i < |s| && 0 <= j < |s| && j == i + 1 ensures !IsSpace(s[i]) || !IsSpace(s[j]) {
        if i < |w| {
          assert s[i] == w[i];
        } else if i == |w| {
          assert s[j] == rest[0];
        } else {
          assert s[i] == rest[i - |w| - 1] && s[j] == rest[j - |w| - 1];
        }
      }
      assert s[0] == w[0];
      assert s[|s| - 1] == rest[|rest| - 1];
    } else if |ws| == 1 {
      assert IsWord(ws[0]);
    }
  }

  /** A collapsed string splits into words that join back to it. */
  lemma {:induction false} JoinOfWordsCollapsed(s: string)
    requires IsCollapsed(s)
    ensures JoinSpaces(Words(s)) == s
    decreases |s|
  {
    if s != [] {
      assert !IsSpace(s[0]);
      var n := WordLen(s);
      if n == |s| {
        assert s[..n] == s;
        assert s[n..] == [];
      } else {
        var t := s[n + 1..];
        CollapsedAfterFirstWord(s, n);
        JoinOfWordsCollapsed(t);
        JoinCons(s[..n], Words(t));
        SplitAround(s, n);
      }
    }
  }

  lemma JoinCons(w: string, ws: seq<string>)
    requires ws != []
    ensures JoinSpaces([w] + ws) == w + " " + JoinSpaces(ws)
  {
    assert ([w] + ws)[1..] == ws;
  }

  lemma SplitAround(s: string, n: nat)
    requires n < |s| && s[n] == ' '
    ensures s == s[..n] + " " + s[n + 1..]
  {
  }

  /** In a collapsed string, the first word is followed by one ' ' and a collapsed rest. */
  lemma CollapsedAfterFirstWord(s: string, n: nat)
    requires IsCollapsed(s) && s != [] && n == WordLen(s) && n < |s|
    ensures n > 0 && s[n] == ' ' && n + 1 < |s|
    ensures IsCollapsed(s[n + 1..]) && !IsBlank(s[n + 1..])
    ensures Words(s) == [s[..n]] + Words(s[n + 1..])
  {
    assert !IsSpace(s[0]);
    assert s[n] == ' ' && n < |s| - 1;
    assert !IsSpace(s[n + 1]);
    CollapsedSuffix(s, n + 1);
    var t := s[n + 1..];
    assert s[n..][1..] == t;
    assert Words(s[n..]) == Words(t);
  }

  /** A suffix of a collapsed string that starts after a ' ' is collapsed. */
  lemma CollapsedSuffix(s: string, m: nat)
    requires IsCollapsed(s) && 0 < m < |s| && s[m - 1] == ' '
    ensures IsCollapsed(s[m..]) && !IsBlank(s[m..])
  {
    var t := s[m..];
    assert !IsSpace(s[m]);
    assert t[0] == s[m] && t[|t| - 1] == s[|s| - 1];
    forall i | 0 <= i < |t| && IsSpace(t[i]) ensures t[i] == ' ' {
      assert t[i] == s[m + i];
    }
    forall i, j | 0 <= i < |t| && 0 <= j < |t| && j == i + 1 ensures !IsSpace(t[i]) || !IsSpace(t[j]) {
      assert t[i] == s[m + i] && t[j] == s[m + j];
    }
  }

  /** Python ASCII-range `str.lower()` for one character. */
  function LowerChar(c: char): char
  {
    if 'A' <= c <= 'Z' then (c as int + 32) as char else c
  }

  function Lower(s: string): (r: string)
  {
    seq(|s|, i requires 0 <= i < |s| => LowerChar(s[i]))
  }

  /** Lower-casing is idempotent and keeps blankness. */
  lemma LowerIdempotent(s: string)
    ensures Lower(Lower(s)) == Lower(s)
    ensures IsBlank(Lower(s)) <==> IsBlank(s)
  {
    assert forall i :: 0 <= i < |s| ==> LowerChar(LowerChar(s[i])) == LowerChar(s[i]);
    if IsBlank(s) {
      forall i | 0 <= i < |s| ensures IsSpace(Lower(s)[i]) { assert IsSpace(s[i]); }
    }
    if IsBlank(Lower(s)) {
      forall i | 0 <= i < |s| ensures IsSpace(s[i]) { assert IsSpace(Lower(s)[i]); }
    }
  }

  /** Python `pat in text`: `pat` occurs as a contiguous slice of `text`. */
  function Contains(text: string, pat: string): (b: bool)
    decreases |text|
  {
    if |pat| <= |text| && text[..|pat|] == pat then true
    else if text == [] then false
    else Contains(text[1..], pat)
  }

  /** `pat` occurs in `text` starting at index `i`. */
  predicate OccursAt(text: string, pat: string, i: int)
  {
    0 <= i <= |text| - |pat| && text[i..i + |pat|] == pat
  }

  /** Contains agrees with the slice definition of substring. */
  lemma {:induction false} ContainsIff(text: string, pat: string)
    ensures Contains(text, pat) <==> exists i :: OccursAt(text, pat, i)
    decreases |text|
  {
    if |pat| <= |text| && text[..|pat|] == pat {
      assert OccursAt(text, pat, 0);
    } else if text != [] {
      ContainsIff(text[1..], pat);
      forall i | OccursAt(text, pat, i) && i > 0 ensures OccursAt(text[1..], pat, i - 1) {
        assert text[i..i + |pat|] == text[1..][i - 1..i - 1 + |pat|];
      }
      if Contains(text[1..], pat) {
        var i :| OccursAt(text[1..], pat, i);
        assert text[i + 1..i + 1 + |pat|] == text[1..][i..i + |pat|];
        assert OccursAt(text, pat, i + 1);
      }
    }
  }

  lemma AppendAssoc<T>(a: seq<T>, b: seq<T>, c: seq<T>)
    ensures (a + b) + c == a + (b + c)
  {
  }

  lemma PrependAssoc<T>(x: seq<T>, a: seq<T>, b: seq<T>, c: seq<T>, d: seq<T>, e: seq<T>)
    ensures x + a + b + c + d + e == x + (a + b + c + d + e)
  {
  }

  /** Drop every character of `cs` (Python `re.sub('[...]', '', s)` with a character class). */
  function RemoveChars(s: string, cs: set<char>): (r: string)
    ensures forall i :: 0 <= i < |r| ==> r[i] !in cs
    ensures |r| <= |s|
    ensures |s| == 1 ==> r == if s[0] in cs then [] else s
  {
    if s == [] then [] else (if s[0] in cs then [] else [s[0]]) + RemoveChars(s[1..], cs)
  }

  lemma {:induction false} RemoveCharsAppend(a: string, b: string, cs: set<char>)
    ensures RemoveChars(a + b, cs) == RemoveChars(a, cs) + RemoveChars(b, cs)
    decreases |a|
  {
    if a != [] {
      assert (a + b)[1..] == a[1..] + b;
      RemoveCharsAppend(a[1..], b, cs);
    } else {
      assert a + b == b;
    }
  }

  /** Inserting a removed character anywhere does not change the result. */
  lemma RemoveCharsIgnores(a: string, c: char, b: string, cs: set<char>)
    requires c in cs
    ensures RemoveChars(a + [c] + b, cs) == RemoveChars(a + b, cs)
  {
    RemoveCharsAppend(a + [c], b, cs);
    RemoveCharsAppend(a, [c], cs);
    RemoveCharsAppend(a, b, cs);
    assert RemoveChars([c], cs) == [];
  }
}
